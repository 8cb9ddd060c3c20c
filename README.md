# Open restaurants: a Dafny model of the opening-hours evaluator

This project models `src/openRestaurants.ts` of the restaurants repository. That
module reads a catalog of restaurants, one `"name","schedule"` line per
restaurant, and returns the restaurants open at a reference instant. The result
is ordered by how long each one has left until it closes.

A schedule is one or more segments separated by `/`. A segment reads, for example,
`Mon, Wed-Fri 11:30 am - 9 pm`: day tokens first, then the opening time and
marker, a separator token, and the closing time and marker.

The model follows the code's layers:

| file | module | what it holds |
|---|---|---|
| `wrappers.dfy` | `Wrappers` | `Option` (JavaScript's `undefined`/`NaN`) and `Result` (an exception that ends the call) |
| `js_string.dfy` | `JsString` | the JavaScript string operations the code relies on: `split`, `join`, `trim`, `replace` of one character, `reverse`, `slice(1, -1)`, `parseInt` |
| `open_restaurants.dfy` | `OpenRestaurants` | the `DAYS_OF_WEEK` and `AM_PM` tables and `parseHoursAndMins`, `isOpenOnDay`, `openForHelper`, `openFor`, `processRestaurant` as pure functions, with lemmas about what they compute |
| `ranking.dfy` | `Ranking` | `findOpenRestaurants`: a method that collects the open restaurants line by line, then sorts them in place in an array by insertion sort; the sort is proved to be the stable sort by `closeIn` |
| `source_cases.dfy` | `SourceCases` | test values from the repository's unit tests for `parseHoursAndMins`, `isOpenOnDay`, `openFor` and `processRestaurant`, derived from the general lemmas |

How JavaScript's semantics are modelled:

- `undefined` and `NaN` are `None`, and every comparison against them is false.
  This is how the code treats an unknown day name, an unknown am/pm marker or a
  non-numeric hour without throwing. None of the evaluator functions has a
  precondition on the schedule text.
- `parseInt` follows section 19.2.5 of ECMAScript 2024 for a radix left
  unspecified. It skips leading white space, reads one optional sign, and a
  `0x` or `0X` prefix selects base 16. It then takes the longest run of digits
  and gives `NaN` when that run is empty. Tokens reach it after the splits on
  space and `:`, but a tab, a sign or a hex prefix can still be part of one.
- A reference instant is the five values its local-time getters return
  (`Instant`).
- Numbers are unbounded integers. The getter values, the table values and the
  constants are small integers, so the doubles compute them exactly. An hour or
  minute token with very many digits is the exception; see "Left out".
- A catalog line without the `","` delimiter makes `openTimes.trim()` throw.
  The model gives `Failure(MalformedRecord(line))` for it.
- The code re-evaluates only when the running result is negative. Once a segment
  reports a result of 0 or more, that result is kept.

Three behaviours of the code that are easy to misread:

- Day ranges that wrap. Only the end ordinal is shifted by 7; the weekday is not.
  So "Mon-Sun" never matches a Sunday, and "Fri-Mon" never matches a Sunday or a
  Monday. The model keeps this, and `WrappedRangeMissesWrappedDays` states it.
- Which records are kept. `processRestaurant` keeps a record when its result is
  above 0. Every evaluator result is -1 or positive (`OpenForHelper`, `OpenFor`),
  so keeping the results of 0 or more would keep the same records.
- Read errors. The error is caught after some lines may already have been
  handled, and the restaurants found so far are still sorted and returned. The
  model makes the result depend only on the lines the reader delivered. A source
  that cannot be opened delivers none, so its result is `[]`.

## Model

| member | source | states |
|---|---|---|
| JsString.Split | src/openRestaurants.ts:63 | `s.split(sep)` always yields at least one piece; what the pieces are is stated by `SplitJoin`, `SplitCutsIffOccurs` and `SplitPiecesLackSeparator` |
| JsString.Join | src/openRestaurants.ts:63 | the join starts with its first piece; `SplitJoin` and `JoinSplit` state that it inverts `split` |
| JsString.SplitJoin | src/openRestaurants.ts:63 | joining the pieces of `s.split(sep)` with `sep` gives `s` back |
| JsString.JoinSplit | src/openRestaurants.ts:88 | splitting the join of pieces that lack the separator's first character gives back exactly those pieces |
| JsString.SplitCutsIffOccurs | src/openRestaurants.ts:63 | `split` yields more than one piece iff the separator occurs in the string |
| JsString.SplitPiecesLackSeparator | src/openRestaurants.ts:76 | no piece of a split on one character contains that character |
| JsString.SplitWithoutSeparator | src/openRestaurants.ts:137 | a string without the separator's first character splits into itself alone |
| JsString.SplitAfterPrefix | src/openRestaurants.ts:93 | the first cut of `a + sep + b` falls right after `a` when `a` lacks the separator's first character |
| JsString.SplitWithoutOccurrence | src/openRestaurants.ts:63 | a string in which the separator does not occur splits into itself alone |
| JsString.SplitAtFirstOccurrence | src/openRestaurants.ts:63 | for `a + sep + b` where `sep` does not occur in `a` followed by all but the last character of `sep`, the first piece is `a` and the rest are the pieces of `b` |
| JsString.NoOccurrence | src/openRestaurants.ts:63 | a separator whose first character is at no position where a match could start does not occur |
| JsString.SplitConcat | src/openRestaurants.ts:76 | splitting `a + "/" + b` on `/` gives the pieces of `a`, then those of `b` |
| JsString.Trim | src/openRestaurants.ts:64 | `trim` never lengthens a string; `TrimCutsWhiteSpace` states what it removes |
| JsString.TrimCutsWhiteSpace | src/openRestaurants.ts:81 | `trim` removes only white space, from both ends, and leaves none at either end |
| JsString.TrimTrimmed | src/openRestaurants.ts:64 | a string that starts and ends with non-white-space is its own trim |
| JsString.TrimPadded | src/openRestaurants.ts:81 | one space on either side of such a string is removed by `trim` |
| JsString.RemoveFirst | src/openRestaurants.ts:93 | `replace(',', '')` removes exactly the first comma, and leaves a string without one unchanged |
| JsString.Reverse | src/openRestaurants.ts:88 | `reverse` keeps the length and puts element `k` at position `n-1-k` |
| JsString.SliceInner | src/openRestaurants.ts:63 | `slice(1, -1)` drops exactly the first and last character, and gives `""` for shorter strings |
| JsString.ParseMagnitude | src/openRestaurants.ts:140 | the digits after the sign give a number that is never negative, and the decimal value on a digit string |
| JsString.ParseSigned | src/openRestaurants.ts:140 | after white space is skipped, a digit string gives its decimal value |
| JsString.ParseIntDecimal | src/openRestaurants.ts:140 | `parseInt` of a digit string is its decimal value |
| JsString.ParseInt | src/openRestaurants.ts:140-143 | `parseInt` without a radix: a result that is a number needs a character that is a digit in base 16. What it reads is stated by `ParseIntDecimal`, `ParseIntSkipsWhiteSpace`, `ParseIntSign`, `ParseIntDecimalPrefix`, `ParseIntHexPrefix`, `ParseIntNoDigits` and `ParseIntWhiteSpace`: leading white space is skipped, then one sign, `0x`/`0X` reads base 16, the longest digit run is taken, and `NaN` comes when there are no digits |
| JsString.ParseIntNoDigits | src/openRestaurants.ts:140-143 | after white space and a sign, a character that is not a decimal digit, or a `0x`/`0X` prefix with no hex digit after it, makes `parseInt` `NaN` (so "x9" and "0x" are `NaN`) |
| JsString.ParseIntWhiteSpace | src/openRestaurants.ts:140 | `parseInt` of an empty or all-white-space string is `NaN` |
| JsString.ParseIntSkipsWhiteSpace | src/openRestaurants.ts:140 | leading white space does not change `parseInt`'s result |
| JsString.ParseIntDecimalPrefix | src/openRestaurants.ts:140 | `parseInt` reads the longest leading decimal run and ignores what follows it |
| JsString.ParseIntHexPrefix | src/openRestaurants.ts:140 | a `0x` or `0X` prefix makes `parseInt` read the following hex digits in base 16 |
| JsString.ParseIntSign | src/openRestaurants.ts:140 | a leading `+` leaves the result unchanged, and a leading `-` negates it (`NaN` stays `NaN`) |
| OpenRestaurants.Lookup | src/openRestaurants.ts:7-20 | a table lookup is defined exactly for the table's keys, and then gives that key's value |
| OpenRestaurants.ParseHoursAndMins | src/openRestaurants.ts:136-146 | a marker other than `am`/`pm` gives `NaN` |
| OpenRestaurants.HoursAndMins | src/openRestaurants.ts:138-145 | the same on the `:`-separated parts of the time. `AddHours` (lines 139-141) adds sixty minutes per hour unless the hour token is empty or "12", and `AddMins` (lines 142-144) adds the minutes unless they are absent or empty; `AddDecimalHours`, `AddDecimalMins` and `PartsFormula` state what they add |
| OpenRestaurants.TimeFormula | src/openRestaurants.ts:136-146 | for digit tokens, the result is 720 per `pm` step, plus 60 per hour unless the hour token is "12", plus the minutes (0 when absent) |
| OpenRestaurants.ParsedTimeFormula | src/openRestaurants.ts:136-146 | for any hour and minute tokens that `parseInt` reads as numbers, the result is 720 per `pm` step, plus 60 times the parsed hour unless the hour token is empty or "12", plus the parsed minutes unless they are absent or empty |
| OpenRestaurants.PartsFormula | src/openRestaurants.ts:138-145 | the same formula on the split parts |
| OpenRestaurants.TwelveHourClockInDay | src/openRestaurants.ts:136-146 | a 12-hour clock reading (hour 1 to 12, minutes up to 59) gives a minute of the day, 0 to 1439 |
| OpenRestaurants.IsOpenOnDay | src/openRestaurants.ts:118-133 | only a known start day can match; `SingleDay`, `DayRange`, `UnknownDay` and `WrappedRangeMissesWrappedDays` state the rest |
| OpenRestaurants.SingleDay | src/openRestaurants.ts:119-121 | with no end day, the day matches iff its name is known and is the weekday |
| OpenRestaurants.DayRange | src/openRestaurants.ts:123-132 | a forward range matches weekdays from its start to its end; a range whose end is not after its start matches every weekday from the start on |
| OpenRestaurants.UnknownDay | src/openRestaurants.ts:118-133 | an unknown start day, or an unknown non-empty end day, never matches |
| OpenRestaurants.WrappedRangeMissesWrappedDays | src/openRestaurants.ts:128-132 | a range that wraps misses every weekday before its start |
| OpenRestaurants.DayTokenMatches | src/openRestaurants.ts:92-95 | a token without `,` or `-` matches iff it names the weekday |
| OpenRestaurants.DaysFold | src/openRestaurants.ts:92-95 | once the running value holds, the `reduce` keeps it |
| OpenRestaurants.DaysFoldAny | src/openRestaurants.ts:91-98 | the `reduce` over day tokens holds iff the initial value holds or some token matches |
| OpenRestaurants.DayNameToken | src/openRestaurants.ts:90-94 | the tokens "Mon" and "Mon," both name the single day "Mon" |
| OpenRestaurants.DayRangeToken | src/openRestaurants.ts:90-94 | the tokens "Mon-Sat" and "Mon-Sat," both name the range from "Mon" to "Sat" |
| OpenRestaurants.CheckTime | src/openRestaurants.ts:105-109 | for getter values in range, the instant in milliseconds lies within one day |
| OpenRestaurants.OpenForHelper | src/openRestaurants.ts:87-115 | a segment's result is the closed sentinel -1 or a positive number of milliseconds |
| OpenRestaurants.DayClause | src/openRestaurants.ts:88-98 | the day clause over the reversed tokens holds iff some token before the last five matches |
| OpenRestaurants.SegmentMeaning | src/openRestaurants.ts:87-115 | a segment is open iff it has more than five tokens, a day token matches, both times parse, and the instant lies strictly between opening and closing; its result is then closing minus now |
| OpenRestaurants.SegmentTokens | src/openRestaurants.ts:87-115 | the same for a segment written as tokens without spaces, as an equation for the result |
| OpenRestaurants.SegmentBoundariesClosed | src/openRestaurants.ts:110-114 | a segment is closed at exactly its opening time and at exactly its closing time, and always closed when closing is not after opening |
| OpenRestaurants.SegmentsFold | src/openRestaurants.ts:76-82 | the fold over segments keeps the "-1 or positive" range of its results |
| OpenRestaurants.FoldKeepsResult | src/openRestaurants.ts:77-80 | once the fold holds a result of 0 or more, no later segment changes it |
| OpenRestaurants.OpenFor | src/openRestaurants.ts:74-83 | a schedule's result is -1 or a positive number of milliseconds |
| OpenRestaurants.FoldFirstOpen | src/openRestaurants.ts:76-82 | starting from -1, the fold gives -1 iff every segment is closed; otherwise it gives the result of the first open segment |
| OpenRestaurants.OpenForFirstOpenSegment | src/openRestaurants.ts:74-83 | `openFor` is -1 iff every trimmed segment is closed; otherwise it is the result of the leftmost open segment |
| OpenRestaurants.FoldConcat | src/openRestaurants.ts:76-82 | the fold over two segment lists runs over the first list, then continues over the second |
| OpenRestaurants.OpenForConcat | src/openRestaurants.ts:74-83 | for `a/b`, the result is `a`'s result when `a` is open, otherwise `b`'s |
| OpenRestaurants.OneSegment | src/openRestaurants.ts:74-83 | a schedule without `/` and without surrounding white space is evaluated as one segment |
| OpenRestaurants.SegmentOfTokens | src/openRestaurants.ts:87-115 | the same equation for a segment whose split into tokens is given |
| OpenRestaurants.PaddedSegment | src/openRestaurants.ts:76-82 | a segment with a space at one or both ends is evaluated as the segment itself |
| OpenRestaurants.SegmentThen | src/openRestaurants.ts:76-82 | for `x / rest`, with or without a space before `x`, the segment `x` decides unless it is closed; then `rest` is evaluated as a schedule |
| OpenRestaurants.TwoSegments | src/openRestaurants.ts:74-83 | for `x / y`, the first segment decides unless it is closed |
| OpenRestaurants.ProcessRestaurant | src/openRestaurants.ts:61-71 | a kept record always has a positive `closeIn` |
| OpenRestaurants.MalformedIffNoDelimiter | src/openRestaurants.ts:63-64 | a line throws iff `","` does not occur between its first and last characters |
| OpenRestaurants.ProcessRecordLine | src/openRestaurants.ts:61-71 | reading `"name","schedule"`, where `","` does not occur in `name` followed by `",` and does not occur in `schedule`, gives the name and evaluates the trimmed schedule; it keeps the record iff there is time left |
| Ranking.Insert | src/openRestaurants.ts:53-55 | insertion adds one element; `InsertPermutes`, `InsertSorted` and `InsertStable` state where it goes |
| Ranking.InsertionSort | src/openRestaurants.ts:53-55 | the sort keeps the length; `InsertionSortCorrect` states that it is the stable sort |
| Ranking.InsertPermutes | src/openRestaurants.ts:53-55 | inserting a record adds exactly that record |
| Ranking.InsertSorted | src/openRestaurants.ts:53-55 | inserting into a sequence sorted by `closeIn` keeps it sorted |
| Ranking.InsertStable | src/openRestaurants.ts:53-55 | insertion places the record after every record with the same `closeIn` |
| Ranking.InsertionSortCorrect | src/openRestaurants.ts:53-55 | the sort orders by `closeIn`, is a permutation, and keeps records with equal `closeIn` in input order |
| Ranking.StableSortUnique | src/openRestaurants.ts:53-55 | two sequences sorted by `closeIn` with the same records for every `closeIn` are equal, so the stable sort's result is unique |
| Ranking.InsertInPlace | src/openRestaurants.ts:53-55 | shifting `a[i]` left in place leaves `a[..i+1]` equal to the insertion of `a[i]` into `a[..i]`, and changes nothing after `i` |
| Ranking.SortByCloseIn | src/openRestaurants.ts:53-55 | the in-place sort leaves the array equal to the stable sort of its old contents |
| Ranking.SortedCopy | src/openRestaurants.ts:53-55 | the collected records, sorted in an array, are their stable sort |
| Ranking.Collected | src/openRestaurants.ts:42-47 | a successful collection holds at most one record per line |
| Ranking.LineResults | src/openRestaurants.ts:42-43 | entry `i` is `processRestaurant` of line `i` |
| Ranking.OpenRecords | src/openRestaurants.ts:42-47 | a successful scan holds at most one record per line |
| Ranking.Ranked | src/openRestaurants.ts:29-57 | a successful ranking holds at most one record per line; `RankedProperties` states that it is the stable sort of the scan |
| Ranking.CollectedInLineOrder | src/openRestaurants.ts:42-47 | a successful collection is the records of the open lines in line order: record `k` comes from the `k`-th open line, the lines strictly increase, and no open line is skipped |
| Ranking.CollectedFailure | src/openRestaurants.ts:42-47 | collecting fails iff some line threw |
| Ranking.CollectedMembers | src/openRestaurants.ts:42-47 | a successful collection holds exactly the restaurants that the lines found open (count and order: `CollectedInLineOrder`) |
| Ranking.OpenRecordsFailure | src/openRestaurants.ts:42-47 | a scan fails iff some line is malformed |
| Ranking.OpenRecordsMembers | src/openRestaurants.ts:42-47 | a successful scan holds the open restaurants of its lines, one per open line and in line order, each with a positive `closeIn` |
| Ranking.CollectOpenRestaurants | src/openRestaurants.ts:42-49 | the line listener, run over every delivered line, yields the open records in line order or the first line's error |
| Ranking.FindOpenRestaurants | src/openRestaurants.ts:29-57 | the result is the scan's records, stably sorted by `closeIn`: ordered, a permutation, with equal keys in line order |
| Ranking.RankedProperties | src/openRestaurants.ts:29-57 | the same for the ranking function |
| Ranking.UnreadableSourceIsEmpty | src/openRestaurants.ts:34-52 | a source that delivers no line, such as a file that cannot be opened, ranks no restaurant |
| SourceCases.TwelveAm | tests/openRestaurents_test.ts:27 | "12" am is minute 0 |
| SourceCases.NineAm | tests/openRestaurents_test.ts:28 | "9" am is minute 540 |
| SourceCases.ElevenThirtyAm | tests/openRestaurents_test.ts:29 | "11:30" am is minute 690 |
| SourceCases.TwelveThirtyAm | tests/openRestaurents_test.ts:30 | "12:30" am is minute 30 |
| SourceCases.TwelveThirtyPm | tests/openRestaurents_test.ts:33 | "12:30" pm is minute 750 |
| SourceCases.NinePm | tests/openRestaurents_test.ts:34 | "9" pm is minute 1260 |
| SourceCases.ElevenThirtyPm | tests/openRestaurents_test.ts:35 | "11:30" pm is minute 1410 |
| SourceCases.DayCases | tests/openRestaurents_test.ts:40-49 | the tests' single-day and range cases on a Monday and a Wednesday, including the ranges that wrap |
| SourceCases.ThreeSegmentCase | tests/openRestaurents_test.ts:65-70 | on Monday at 1:15 pm, "Sun 8:45 am - 7 pm / Fri - Sat 11:30 am - 9 pm / Mon-Tue 11:30 am - 4 pm" gives 9900000: the first two segments are closed and the third decides |
| SourceCases.TwoSegmentCase | tests/openRestaurents_test.ts:71-73 | on Wednesday at 4:26 am, "Wed 3:30 am - 1 pm / Fri-Sat 2:30 am - 1 pm" gives 30840000 from the first segment |
| SourceCases.IsobuneOpen | tests/openRestaurents_test.ts:90-92 | the line for "Isobune Sushi" open "Mon-Sun 11:30 am - 9:30 pm" is kept on Monday at 1:15 pm with `closeIn` 29700000 |
| SourceCases.IsobuneClosed | tests/openRestaurents_test.ts:93-94 | the same line with "Wed-Sun" gives `null` on a Monday, because the wrapped range misses Monday |

## Left out

- Reading the file: the `fs` stream, the `readline` interface, its `crlfDelay` line splitting and the `events.once` wait are not modelled. A `LineSource` stands for what the reader delivers, namely the lines and whether it reported an error.
- The `console.error` log line is left out. It is output only.
- `Date` is not modelled: time zones and the calendar are out of scope. An `Instant` holds the values of `getDay`, `getHours`, `getMinutes`, `getSeconds` and `getMilliseconds`.
- JsString.ParseInt: values are exact integers. JavaScript rounds a numeral above 2^53 to the nearest double, and the model does not. `-0` is read as 0; `-0` and 0 behave the same in every later sum and comparison here.
- A Dafny `string` is a sequence of Unicode code points, and a JavaScript string is a sequence of UTF-16 code units. A character outside the Basic Multilingual Plane is one element here and two there. So `slice(1, -1)` (`SliceInner`) and the lengths differ on a line that begins or ends with such a character, where the code keeps half of a surrogate pair.
- OpenRestaurants.Lookup: keys inherited from `Object.prototype` (`constructor`, `__proto__`, ...) are treated as `undefined`. In the code they yield functions or objects, which compare and multiply like `NaN`, so every result is the same.
- Floating-point `number` is not modelled. Apart from the very long numerals above, every value is an integer well below 2^53.
- Ranking.FindOpenRestaurants: a line without `","` throws inside the line listener, outside the `try`, and in the code the returned promise never settles. The model returns `Failure(MalformedRecord(line))` for the first such line.
- Ranking.SortByCloseIn: `Array.prototype.sort` is a stable sort, but the engine's algorithm is not specified. The model sorts with insertion sort and proves that its result is the unique stable sort by `closeIn` (`StableSortUnique`).
- The single-segment `openFor` test values (tests/openRestaurents_test.ts:54-61 and 79-84) and the second `-1` case of the two-segment tests (lines 74-76) are not restated. Each such lemma costs the verifier as much as the four restated cases, and those cases already use every step the others need. The general lemmas `SegmentTokens`, `OneSegment` and `TwoSegments` cover them. The fixture file for `findOpenRestaurants` is not part of this model.
