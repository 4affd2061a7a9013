# Time duration calculation — a Dafny model of the calculator core

The repository is a small command-line tool. It takes a time range such as `9:00AM-5:30PM`
and prints how many hours lie between the two times. Its core is in
`src/time_duration_calculator.rs` and has three pure stages:

- **Parser** (`time_parsing::parse_time_components`). It trims a token. It removes a trailing
  `AM`/`PM` in any casing, but only when the character before it is not a letter. It then splits
  the rest on `:` into an hour of one or two characters and a minute of exactly two. Both fields
  are read with `u32::from_str`. The hour must be 1..12 and the minute 0..59.
- **Converter** (`time_conversion::to_minutes`). It turns a 12-hour reading and the indicator
  `"AM"`/`"PM"` into minutes since midnight: 12 AM is 0 and 12 PM is 720. Any other indicator
  is an error.
- **Range calculator** (`time_difference::calculate`). It splits the range on `-` into exactly
  two sides, trims each and refuses an empty side. It parses both sides and passes on any parse
  error unchanged. Then it resolves the meridiems:
  - both sides keep their own;
  - when neither side has one, the start is read as AM and the end as PM;
  - when only one side has one, the range is refused as ambiguous.

  An end before the start is refused, and the error reports both raw sides with the clocks they
  were read as. Otherwise the result is the difference in hours.

The model is written as functions and lemmas, because the source is pure. Modules:

| file | module | contents |
|---|---|---|
| `types.dfy` | `Types` | `Option`, `Result`, the error taxonomy `TimeError`, the resolved `Clock` |
| `text.dfy` | `Text` | ASCII character classes, `to_uppercase`, `eq_ignore_ascii_case`, `trim`, `split` |
| `time_parsing.dfy` | `TimeParsing`, `TimeGrammar` | the parser, and the grammar it accepts, stated independently of it |
| `time_conversion.dfy` | `TimeConversion` | `to_minutes`, a reference minute-of-day reading and its inverse |
| `time_difference.dfy` | `TimeDifference`, `RangePolicy` | `calculate`, and one lemma per row of its decision table |
| `examples_of_tests.dfy` | `Examples` | the repository's unit tests, proved on the model |

Design choices:

- Errors are tagged values. The source builds a message string for each error, and the model
  keeps the kind of error and the data the message shows. `OrderingError` carries the raw end,
  the resolved end clock, the raw start and the resolved start clock, which are the facts the
  source's message (lines 163-168) reports.
- `Calculate` returns whole minutes. `Hours` is the division by 60 (line 170), done on `real`.
- Fields are read exactly as `u32::from_str` reads them. One optional leading `+` is allowed,
  followed by at least one decimal digit. So `+9:00` parses as 9:00 and `9:+5` as 9:05: the
  minute field `+5` has two characters and reads as 5.

Notes on behaviour. These come from the code and are proved here; they are not stated in the
repository:

- `09:BBAM` is refused for the **length** of its minute field, not as a non-numeric minute.
  The character before `AM` is the letter `B`, so the suffix is kept, and the minute field is
  `BBAM` (`Examples.ParsesLetterMinute`).
- A range with no meridiem on either side can never fail the ordering check. The latest
  possible AM start (11:59, minute 719) is before the earliest possible PM end (12:00, minute
  720). So such a range always succeeds with a positive result
  (`RangePolicy.ImplicitRangeIsOrdered`), and the check at line 163 never refuses a range
  without meridiems.
- Lines 38-45 of the parser handle a trimmed token of exactly two characters that reads as a
  meridiem. The test on line 38 always holds there, so lines 44-45 are never reached, and such a
  token is always an error (`TimeParsing.StripMeridiem`).
- `to_minutes` is only ever called with `"AM"` or `"PM"` from `calculate`, so its error branch
  (lines 117-120) is unreachable from there. `TimeDifference.Elapsed` says this: its errors are
  only ambiguity and ordering errors.

## Model

| member | source | states |
|---|---|---|
| TimeParsing.ParseU32 | src/time_duration_calculator.rs:74-85 | `u32::from_str` succeeds exactly on an optional '+' followed by at least one digit, with a value of at most 2^32-1, and then returns that value |
| TimeParsing.ShortTokenValue | src/time_duration_calculator.rs:61-85 | a field of one or two characters accepted by `u32::from_str` is at most 99, so the parse never overflows |
| TimeParsing.MeridiemSpellings | src/time_duration_calculator.rs:26-27 | `IsMeridiemText`: two characters equal "AM" or "PM" ignoring ASCII case exactly when they are A, a, P or p followed by M or m |
| TimeParsing.StripMeridiem | src/time_duration_calculator.rs:23-48 | fails exactly when the trimmed token is only a two-letter meridiem; a meridiem is stripped exactly when the last two characters are AM/PM in any case and the character before them is not a letter; what is stripped is upper-cased to "AM" or "PM", and otherwise the token is kept unchanged |
| TimeParsing.ParseFields | src/time_duration_calculator.rs:50-100 | an accepted reading has hour 1..12 and minute 0..59 and keeps the meridiem; every refusal is a format or value error |
| TimeParsing.ParseToken | src/time_duration_calculator.rs:20-100 | on a trimmed token: an accepted reading is in range, its meridiem is absent, "AM" or "PM", and refusals are format or value errors; an empty token is refused for its colon count |
| TimeParsing.ParseTimeComponents | src/time_duration_calculator.rs:18-101 | the parser: bounds of accepted readings, meridiem only "AM"/"PM", error kinds, blank input refused |
| TimeGrammar.FieldsAccept | src/time_duration_calculator.rs:50-100 | the field stage accepts a 1-2 character hour and a 2 character minute around one ':' with values in range, and returns those values |
| TimeGrammar.StripsSuffix | src/time_duration_calculator.rs:24-48 | the suffix stage splits a grammatical token into its fields and its upper-cased suffix |
| TimeGrammar.ParseAccepts | src/time_duration_calculator.rs:18-101 | completeness: every in-range `H:MM[AM/PM]` sentence (after trimming) is accepted with its hour, minute and upper-cased meridiem |
| TimeGrammar.FieldsSound | src/time_duration_calculator.rs:50-100 | what the field stage accepts is two well-formed fields around exactly one ':' that read as the returned values |
| TimeGrammar.StripSound | src/time_duration_calculator.rs:24-48 | what the suffix stage removes is empty or an AM/PM suffix, and it names the reported meridiem |
| TimeGrammar.ParseSound | src/time_duration_calculator.rs:18-101 | soundness: whatever the parser accepts is a sentence of the grammar that denotes the returned reading, and that reading is in range |
| TimeGrammar.ParseCharacterization | src/time_duration_calculator.rs:18-101 | the parser accepts a reading if and only if the trimmed input is a grammatical sentence denoting it with hour 1..12 and minute 0..59 |
| TimeGrammar.ParseIgnoresTrim | src/time_duration_calculator.rs:20 | trimming the input first does not change the parser's answer |
| TimeGrammar.MinuteIsNotMeridiem | src/time_duration_calculator.rs:24-31 | a well-formed minute field never looks like a meridiem and does not end in a letter |
| TimeGrammar.FormattedFields | src/time_duration_calculator.rs:58-85 | an hour written with one or two digits and a minute written with two digits are well-formed fields that read back as their values |
| TimeGrammar.SentenceIsTrimmed | src/time_duration_calculator.rs:20 | a grammatical token is ASCII and has no whitespace at either end |
| TimeGrammar.ParseRoundTrip | src/time_duration_calculator.rs:18-101 | writing an in-range hour, ':', a two-digit minute and an optional AM/PM suffix in any casing, with any whitespace around it, parses back to the same hour, minute and upper-cased suffix |
| Text.WhitespaceCharacters | src/time_duration_calculator.rs:20 | `IsWhitespace`, the `char::is_whitespace` test behind `trim`, holds on ASCII exactly for space, tab, line feed, vertical tab, form feed and carriage return |
| Text.IsAlphabetic | src/time_duration_calculator.rs:31 | `is_alphabetic` on ASCII: a character is a letter exactly when it upper-cases to A..Z |
| Text.Upper | src/time_duration_calculator.rs:34 | `to_uppercase` on ASCII: same length, and each character is the upper case of the character in the same place |
| Text.UpperCases | src/time_duration_calculator.rs:34 | after upper-casing no lower-case letter remains, every character that is not a lower-case letter is unchanged, and each lower-case letter becomes the capital at the same place in the alphabet |
| Text.EqIgnoreCaseByCharacter | src/time_duration_calculator.rs:26-27 | `eq_ignore_ascii_case`: two texts are equal ignoring case exactly when they have the same length and agree at every position up to case |
| Text.TrimStart | src/time_duration_calculator.rs:20 | drops a leading run of whitespace and keeps a suffix that does not start with whitespace |
| Text.TrimEnd | src/time_duration_calculator.rs:20 | drops a trailing run of whitespace and keeps a prefix that does not end with whitespace |
| Text.Trim | src/time_duration_calculator.rs:20 | `trim` leaves no whitespace at either end, never grows the text, and keeps ASCII text ASCII |
| Text.TrimIsMiddle | src/time_duration_calculator.rs:137-138 | what `trim` keeps is a middle slice of the input, with only whitespace before and after it |
| Text.TrimFrames | src/time_duration_calculator.rs:20 | whitespace around a token with no whitespace at its ends is exactly what `trim` removes |
| Text.TrimIdempotent | src/time_duration_calculator.rs:137-138 | trimming twice is the same as trimming once |
| Text.Split | src/time_duration_calculator.rs:50 | `split` gives at least one piece, no piece contains the separator, and the pieces joined by the separator give back the input |
| Text.SplitCount | src/time_duration_calculator.rs:51 | there is one more piece than there are separators |
| Text.JoinedAscii | src/time_duration_calculator.rs:130 | every piece of ASCII text is ASCII |
| Text.SplitWithoutSeparator | src/time_duration_calculator.rs:130 | text without the separator splits into just itself |
| Text.SplitTwo | src/time_duration_calculator.rs:50-59 | two separator-free pieces joined by one separator split back into exactly those two pieces |
| TimeConversion.ToMinutes | src/time_duration_calculator.rs:107-123 | fails exactly on an indicator other than "AM" or "PM"; otherwise, for an hour in 1..12, it is the reference minute of the day (hour mod 12, plus twelve hours for PM), which for a minute in 0..59 is below 1440 |
| TimeConversion.FromMinutes | src/time_duration_calculator.rs:107-123 | every minute of the day has a valid 12-hour reading, AM before noon and PM from noon on |
| TimeConversion.ToMinutesOfFromMinutes | src/time_duration_calculator.rs:107-123 | converting the 12-hour reading of a minute of the day gives back that minute |
| TimeConversion.FromMinutesOfToMinutes | src/time_duration_calculator.rs:107-123 | conversion is one-to-one on valid readings: the reading is recovered from its minute |
| TimeConversion.MidnightAndNoon | src/time_duration_calculator.rs:115-116 | 12 AM is minute 0 and 12 PM is minute 720 |
| TimeConversion.PmIsTwelveHoursLater | src/time_duration_calculator.rs:114-122 | for every hour 1..12, the PM reading is exactly 720 minutes after the AM reading |
| TimeConversion.HalvesOfTheDay | src/time_duration_calculator.rs:114-122 | AM readings fall before noon and PM readings from noon on |
| TimeConversion.ConversionExamples | src/time_duration_calculator.rs:317-334 | the unit test's conversions: 9 AM, 12 AM, 5:30 PM and 12 PM |
| TimeDifference.ResolveMeridiems | src/time_duration_calculator.rs:147-162 | the ambiguity policy refuses a range exactly when one side names a meridiem and the other does not |
| TimeDifference.Elapsed | src/time_duration_calculator.rs:147-170 | after parsing, the result is under one day and the only errors are ambiguity and ordering, so the converter's error branch is never reached |
| TimeDifference.Difference | src/time_duration_calculator.rs:145-170 | the result is under one day; errors are parse errors, ambiguity or ordering |
| TimeDifference.Calculate | src/time_duration_calculator.rs:129-171 | the result is under one day; errors are format, value, ambiguity or ordering errors, never an indicator error |
| TimeDifference.Hours | src/time_duration_calculator.rs:170 | hours times 60 is the minute difference, and it is never negative |
| RangePolicy.CalculateNeedsOneSeparator | src/time_duration_calculator.rs:130-136 | a range without exactly one '-' is a format error |
| RangePolicy.RangeHasTwoSides | src/time_duration_calculator.rs:130-131 | every range with exactly one '-' is a text without '-', then '-', then a text without '-', so the lemmas below, stated on that form, cover every range the separator check lets through |
| RangePolicy.SidesOfRange | src/time_duration_calculator.rs:130 | the two sides of a range with one '-' are the text before and after it |
| RangePolicy.CalculateSides | src/time_duration_calculator.rs:130-146 | a range with one '-' and two sides that are non-empty after trimming is measured between the trimmed sides |
| RangePolicy.CalculateEmptySide | src/time_duration_calculator.rs:137-144 | a side that is empty after trimming is a format error |
| RangePolicy.CalculatePassesStartError | src/time_duration_calculator.rs:145 | an error parsing the start is returned unchanged |
| RangePolicy.CalculatePassesEndError | src/time_duration_calculator.rs:146 | when the start parses, an error parsing the end is returned unchanged |
| RangePolicy.CalculateAmbiguous | src/time_duration_calculator.rs:158-161 | when exactly one side names a meridiem the range is refused as ambiguous |
| RangePolicy.ElapsedAmbiguous | src/time_duration_calculator.rs:158-161 | after parsing, a mixed pair of meridiems is an ambiguity error |
| RangePolicy.ElapsedResolved | src/time_duration_calculator.rs:147-170 | after parsing, a consistent pair is measured with each side's own meridiem, or AM for the start and PM for the end |
| RangePolicy.DifferenceOfParsed | src/time_duration_calculator.rs:145-146 | when both sides parse, the calculation continues with the parsed readings |
| RangePolicy.CalculateResolved | src/time_duration_calculator.rs:145-170 | with consistent meridiems the range succeeds if and only if the resolved end is not before the resolved start, and then gives the minutes between them; otherwise the ordering error reports both trimmed sides and their resolved clocks |
| RangePolicy.ImplicitRangeIsOrdered | src/time_duration_calculator.rs:153-157 | a range with no meridiem on either side always succeeds with a positive duration |
| RangePolicy.CalculateSameTime | src/time_duration_calculator.rs:163-170 | a range from a time with a meridiem to itself lasts zero minutes |
| RangePolicy.MeasureSame | src/time_duration_calculator.rs:163-170 | the same resolved clock on both sides measures zero |
| RangePolicy.CalculateSameBareTime | src/time_duration_calculator.rs:153-157 | the same bare time on both sides reads as AM to PM and lasts twelve hours |
| Examples.Untrimmed | src/time_duration_calculator.rs:20 | a token with no whitespace at its ends is its own trimming |
| Examples.Parses0900AM | src/time_duration_calculator.rs:253-254 | "09:00AM" parses as 9:00 AM |
| Examples.Parses900am | src/time_duration_calculator.rs:257-258 | "9:00am" parses as 9:00 AM |
| Examples.Parses1230PM | src/time_duration_calculator.rs:261-262 | "12:30PM" parses as 12:30 PM |
| Examples.Parses0115pm | src/time_duration_calculator.rs:265-266 | "01:15pm" parses as 1:15 PM |
| Examples.Parses0900 | src/time_duration_calculator.rs:269-270 | "09:00" parses as 9:00 with no meridiem |
| Examples.Parses900 | src/time_duration_calculator.rs:273-274 | "9:00" parses as 9:00 with no meridiem |
| Examples.Parses1200 | src/time_duration_calculator.rs:277-278 | "12:00" parses as 12:00 with no meridiem |
| Examples.Parses0700AMPadded | src/time_duration_calculator.rs:281-282 | " 07:00AM " parses as 7:00 AM |
| Examples.Parses700 | src/time_duration_calculator.rs:285-286 | "7:00" parses as 7:00 with no meridiem |
| Examples.ParsesSignedHour | src/time_duration_calculator.rs:74-79 | "+9:00" parses as 9:00, because `u32::from_str` accepts a leading '+' |
| Examples.ParsesSignedMinute | src/time_duration_calculator.rs:80-85 | "9:+5" parses as 9:05, because the two-character minute "+5" reads as 5 |
| Examples.ParsesNoColon | src/time_duration_calculator.rs:292 | "900AM" is refused: no ':' |
| Examples.ParsesUnknownSuffix | src/time_duration_calculator.rs:293 | "09:00XM" is refused: the suffix is kept, so the minute field is too long |
| Examples.ParsesLongSuffix | src/time_duration_calculator.rs:294 | "09:00PMM" is refused: the token does not end in AM/PM, so nothing is stripped and the minute field "00PMM" is too long |
| Examples.ParsesLongHour | src/time_duration_calculator.rs:295 | "090:00AM" is refused: the hour has three characters |
| Examples.ParsesShortMinute | src/time_duration_calculator.rs:296 | "09:0AM" is refused: the minute has one character |
| Examples.ParsesLongMinute | src/time_duration_calculator.rs:297 | "09:000AM" is refused: the minute has three characters |
| Examples.ParsesNoHour | src/time_duration_calculator.rs:298 | ":00AM" is refused: the hour is empty |
| Examples.ParsesNoMinute | src/time_duration_calculator.rs:299 | "09:AM" is refused: the suffix is stripped (the character before it is ':'), which leaves an empty minute field |
| Examples.ParsesHourOnly | src/time_duration_calculator.rs:300 | "9" is refused: no ':' |
| Examples.ParsesHourAndSuffix | src/time_duration_calculator.rs:301 | "9AM" is refused: no ':' once the suffix is removed |
| Examples.ParsesSuffixOnly | src/time_duration_calculator.rs:302 | "AM" is refused as a bare meridiem |
| Examples.ParsesEmpty | src/time_duration_calculator.rs:303 | "" is refused: no ':' |
| Examples.ParsesSpacedSuffix | src/time_duration_calculator.rs:304 | "10:30 AM" is refused: the space stays in the minute field, which then has three characters |
| Examples.ParsesZeroHour | src/time_duration_calculator.rs:309 | "00:00AM" is refused: hour 0 is out of range |
| Examples.ParsesHour13 | src/time_duration_calculator.rs:310 | "13:00AM" is refused: hour 13 is out of range |
| Examples.ParsesMinute60 | src/time_duration_calculator.rs:311 | "09:60AM" is refused: minute 60 is out of range |
| Examples.ParsesLetterHour | src/time_duration_calculator.rs:312 | "AA:00AM" is refused: the hour is not a number |
| Examples.ParsesLetterMinute | src/time_duration_calculator.rs:313 | "09:BBAM" is refused for the length of its minute field, because the letter before "AM" keeps the suffix |
| Examples.MeasureWorkingDay | src/time_duration_calculator.rs:163-170 | 9:00 AM to 5:30 PM is 510 minutes |
| Examples.MeasureEveningToMorning | src/time_duration_calculator.rs:163-168 | 5:00 PM to 9:00 AM is refused, reporting 9:00 AM as the end and 5:00 PM as the start |
| Examples.Range0900AMTo0530PM | src/time_duration_calculator.rs:338 | "09:00AM-05:30PM" is 510 minutes, 8.5 hours |
| Examples.Range900AMTo530PM | src/time_duration_calculator.rs:339 | "9:00AM-5:30PM" is 510 minutes, 8.5 hours |
| Examples.Range0900To0530 | src/time_duration_calculator.rs:344 | "09:00-05:30" is 510 minutes, 8.5 hours, read as AM to PM |
| Examples.Range900To530 | src/time_duration_calculator.rs:345 | "9:00-5:30" is 510 minutes, 8.5 hours, read as AM to PM |
| Examples.Range0900AMTo0500 | src/time_duration_calculator.rs:350 | "09:00AM-05:00" is refused as ambiguous |
| Examples.Range0900To0500PM | src/time_duration_calculator.rs:351 | "09:00-05:00PM" is refused as ambiguous |
| Examples.Range0500PMTo0900AM | src/time_duration_calculator.rs:356-360 | "05:00PM-09:00AM" is refused for ordering, reporting "09:00AM" read as 9:00 AM and "05:00PM" read as 5:00 PM |
| Examples.Range1000AMTo1000AM | src/time_duration_calculator.rs:163-170 | "10:00AM-10:00AM" lasts zero minutes |

## Left out

- The command-line entry point `main` and the clock lookup it uses for a single time (lines
  174-244) are not part of this model. The lookup reads the local time through `chrono`.
- The text of error messages and the `Display` and `Error` implementations (lines 1-11) are not
  modelled. Errors are kept as tagged values that carry the data each message shows.
- TimeParsing.ParseTimeComponents: requires ASCII input. The source cuts the token by byte
  offsets and looks back by character index. Both agree only on ASCII. On other text the source
  may panic when a cut falls inside a multi-byte character, and panics are not modelled.
- TimeDifference.Calculate: requires ASCII input, for the same reason.
- TimeDifference.Calculate: returns the minute difference as a whole number. The source returns
  it divided by 60 as an `f64`. `Hours` gives that quotient exactly as a `real`; floating-point
  rounding is not modelled.
- TimeConversion.ToMinutes: does not model `u32` overflow. `hour24 += 12` (line 116) and
  `hour24 * 60 + minute` (line 122) overflow only for hour or minute values far outside what the
  parser emits, such as a minute near 2^32. `calculate` only passes hours 1..12 and minutes 0..59.
- TimeConversion.ToMinutes: the source's `original_time_str` parameter is used only in the
  error message, so the model drops it and the error keeps the indicator.
- Whitespace is `char::is_whitespace` restricted to ASCII: tab, line feed, vertical tab, form
  feed, carriage return and space.
