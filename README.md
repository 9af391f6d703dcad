# Subtitle extraction from Final Cut XML: a Dafny model

The transformer reads a Final Cut Pro XML timeline export (`xmeml`/`sequence` root) with a SAX
parser and writes the captions it finds as an `.srt` file. Its core is the SAX content handler
`SubtilesSAXParser` and the time helpers in `TimeUtils`:

- each `generatoritem` element becomes one `Subtitle`: a running id, a start and an end
  timestamp converted from frames, and a caption text;
- the caption text starts as the element's `type` attribute and is replaced by the `value` that
  follows a `parameterid` reading `str`;
- `timebase` gives frames per second; the value seen last is the one used;
- the first non-`generatoritem` element must be `sequence` or `xmeml`, otherwise parsing stops;
- a timestamp is `hh:mm:ss,f`: the clock comes from `convertSecondsInTime`, and `f` is the
  truncated number of thousandths, written without padding.

The Dafny project is organised as follows.

- `wrappers.dfy`: `Option` (Java's null) and `Result`.
- `strings.dfy`: the string operations the Java code relies on. These are `Integer.toString`,
  parsing of decimal digit strings, zero padding, `String.split` (trailing empty parts dropped)
  and `equalsIgnoreCase`.
- `time_utils.dfy`: `TimeUtils`.
  - Java's truncating `/` and `%` and the `(int)` cast are written out explicitly.
  - `convertSecondsInTime` and `normalizeShortDate` are methods with their loops. Each is proved
    equal to a specification function, and the properties are proved about that function.
- `subtitles.dfy`: the handler.
  - The `Subtitle` bean is a datatype.
  - The handler's fields form a `ParserState` value. `StartStep`, `EndStep` and `CharactersStep`
    say what each callback does to it.
  - The class `SubtilesSaxParser` holds the fields, and its three callback methods are proved to
    perform exactly those steps.
  - `Run` feeds a sequence of SAX events and stops at the first callback that throws, keeping the
    fields as they were at the throw.
- `extraction_properties.dfy`: what the handler guarantees, one callback at a time and over whole
  event sequences.

## Model

| member | source | states |
|---|---|---|
| Strings.NatToStringRoundTrip | src/main/java/com/minimalgap/transformer/subtitles/utils/TimeUtils.java:184-186 | the decimal text `Integer.toString` writes for a non-negative number parses back to that number |
| Strings.NatToStringNoLeadingZero | src/main/java/com/minimalgap/transformer/subtitles/SubtilesSAXParser.java:120 | a decimal number's text starts with `0` exactly when the number is 0 |
| Strings.NatToStringLength | src/main/java/com/minimalgap/transformer/subtitles/utils/TimeUtils.java:187-197 | a number has one digit iff it is below 10, and at most two iff it is below 100: the cases the padding loop distinguishes |
| Strings.LeftPadShape | src/main/java/com/minimalgap/transformer/subtitles/utils/TimeUtils.java:112-114 | prepending `0` until the width is reached yields exactly `width - len` zeros followed by the text, and the text unchanged when it is already wide enough |
| Strings.LeftPadValue | src/main/java/com/minimalgap/transformer/subtitles/utils/TimeUtils.java:112-114 | zero padding a digit string does not change the number it denotes |
| Strings.SplitAllJoin | src/main/java/com/minimalgap/transformer/subtitles/utils/TimeUtils.java:51 | splitting `a + sep + rest`, where `a` has no separator, gives `a` followed by the parts of `rest` |
| Strings.DropTrailingEmpty | src/main/java/com/minimalgap/transformer/subtitles/utils/TimeUtils.java:51 | `String.split` keeps a prefix of the raw parts whose last part, if any, is not empty |
| Strings.JavaSplit | src/main/java/com/minimalgap/transformer/subtitles/utils/TimeUtils.java:51 | `split` on a separator absent from the text gives the text itself; otherwise a prefix of the raw parts with a non-empty last part; no part contains the separator |
| Strings.EqualsIgnoreCaseLowerCase | src/main/java/com/minimalgap/transformer/subtitles/SubtilesSAXParser.java:126-166 | two names are equal ignoring case exactly when their lower-case forms are equal |
| Strings.EqualsIgnoreCaseEquivalence | src/main/java/com/minimalgap/transformer/subtitles/SubtilesSAXParser.java:126-166 | equality ignoring case is reflexive, symmetric and transitive |
| TimeUtils.JavaDiv | src/main/java/com/minimalgap/transformer/subtitles/utils/TimeUtils.java:185-186 | Java's `/` truncates toward zero: for a non-negative dividend `q*b <= a < q*b + b`, for a negative one `q*b - b < a <= q*b` |
| TimeUtils.JavaRem | src/main/java/com/minimalgap/transformer/subtitles/utils/TimeUtils.java:184-185 | Java's `%` agrees with the mathematical remainder on non-negative dividends, is never positive for negative ones, stays strictly between `-b` and `b`, and with the truncated quotient recombines to the dividend: `(a/b)*b + a%b == a` |
| TimeUtils.Int32Cast | src/main/java/com/minimalgap/transformer/subtitles/utils/TimeUtils.java:184-186 | the `(int)` cast leaves values in the 32-bit range unchanged and otherwise wraps: the result always differs from the input by a multiple of 2^32 |
| TimeUtils.ConvertSecondsInTime | src/main/java/com/minimalgap/transformer/subtitles/utils/TimeUtils.java:183-199 | the two-pass padding loop computes exactly `SecondsInTime`: each field padded with zeros to width 2 and the three fields joined by `:` |
| TimeUtils.ClockArithmetic | src/main/java/com/minimalgap/transformer/subtitles/utils/TimeUtils.java:184-186 | hours, minutes and seconds recombine to the input, and minutes are below 60 |
| TimeUtils.PaddedField | src/main/java/com/minimalgap/transformer/subtitles/utils/TimeUtils.java:187-197 | a padded field is all digits, at least two wide, exactly two below 100, and reads back as its number |
| TimeUtils.FieldsOfNonNegative | src/main/java/com/minimalgap/transformer/subtitles/utils/TimeUtils.java:184-186 | for a non-negative input below 2^31 hours no cast wraps: the fields are the exact quotients and remainders |
| TimeUtils.SecondsInTimeFields | src/main/java/com/minimalgap/transformer/subtitles/utils/TimeUtils.java:184-198 | `hh:mm:ss` layout: two-digit minutes and seconds below 60, at least two digits of hours, and the text longer than 8 characters iff the input reaches 100 hours |
| TimeUtils.SecondsInTimeRoundTrip | src/main/java/com/minimalgap/transformer/subtitles/utils/TimeUtils.java:183-199 | reading the clock text back as `h*3600 + m*60 + s` recovers the number of seconds |
| TimeUtils.SecondsInTimeCharacters | src/main/java/com/minimalgap/transformer/subtitles/utils/TimeUtils.java:198 | the clock text contains only digits and `:` |
| TimeUtils.MillisecondInTimeRoundTrip | src/main/java/com/minimalgap/transformer/subtitles/utils/TimeUtils.java:202-205 | for non-negative milliseconds the result is the clock of `ms / 1000` whole seconds and reads back as that |
| TimeUtils.MicrosecondInTimeRoundTrip | src/main/java/com/minimalgap/transformer/subtitles/utils/TimeUtils.java:208-211 | for non-negative microseconds the result is the clock of `us / 1000000` whole seconds and reads back as that |
| TimeUtils.SecondsInTimeZero | src/main/java/com/minimalgap/transformer/subtitles/utils/TimeUtils.java:183-199 | zero seconds formats as `00:00:00` |
| TimeUtils.MillisecondInTimeTruncates | src/main/java/com/minimalgap/transformer/subtitles/utils/TimeUtils.java:202-205 | any count of less than one second either side of zero, negative ones included, formats as `00:00:00`: the division truncates toward zero |
| TimeUtils.MicrosecondInTimeTruncates | src/main/java/com/minimalgap/transformer/subtitles/utils/TimeUtils.java:208-211 | any count of less than a million microseconds either side of zero formats as `00:00:00` |
| TimeUtils.NormalizeShortDate | src/main/java/com/minimalgap/transformer/subtitles/utils/TimeUtils.java:111-121 | the loop and the two single pads compute `NormalizedShortDate`: the year padded to four, month and day padded once, joined by `-` |
| TimeUtils.NormalizedShortDateFields | src/main/java/com/minimalgap/transformer/subtitles/utils/TimeUtils.java:111-121 | for dash-free inputs, splitting the result on `-` gives back the three padded fields; the year is exactly `4 - len` zeros (none when already 4 long) followed by the year, and month and day are each one `0` followed by the text when shorter than 2, and unchanged otherwise |
| TimeUtils.NormalizedShortDateValues | src/main/java/com/minimalgap/transformer/subtitles/utils/TimeUtils.java:111-121 | padding keeps the numeric value of year, month and day |
| TimeUtils.SplitDashes | src/main/java/com/minimalgap/transformer/subtitles/utils/TimeUtils.java:51 | a run of k dashes splits into k+1 empty parts |
| TimeUtils.DropEmpties | src/main/java/com/minimalgap/transformer/subtitles/utils/TimeUtils.java:51 | `split` drops exactly the trailing empty parts after a non-empty last part |
| TimeUtils.ItalianToEnglishDate | src/main/java/com/minimalgap/transformer/subtitles/utils/TimeUtils.java:50-56 | a converted date exists only when the input contains a dash, and then contains exactly two dashes |
| TimeUtils.ItalianToEnglishOnTriple | src/main/java/com/minimalgap/transformer/subtitles/utils/TimeUtils.java:50-56 | `a-b-c` (any trailing dashes ignored by `split`) converts to `c-b-a` |
| TimeUtils.ItalianToEnglishInvolution | src/main/java/com/minimalgap/transformer/subtitles/utils/TimeUtils.java:50-56 | converting twice gives back a well-formed `a-b-c` date |
| TimeUtils.SplitAllCount | src/main/java/com/minimalgap/transformer/subtitles/utils/TimeUtils.java:51 | splitting on a separator yields one more part than there are separators |
| TimeUtils.SplitAllLastPiece | src/main/java/com/minimalgap/transformer/subtitles/utils/TimeUtils.java:51 | when the text does not end with the separator the last part is not empty |
| TimeUtils.ItalianToEnglishNeedsTwoDashes | src/main/java/com/minimalgap/transformer/subtitles/utils/TimeUtils.java:50-56 | fewer than two dashes gives null; for text not ending in `-`, a result exists iff there are exactly two dashes |
| TimeUtils.NormalizedDateToEnglish | src/main/java/com/minimalgap/transformer/subtitles/utils/TimeUtils.java:50-56 | a date produced by `normalizeShortDate` converts to `dd-MM-yyyy` with its padded fields reversed |
| Subtitles.LongCast | src/main/java/com/minimalgap/transformer/subtitles/SubtilesSAXParser.java:116 | the `(long)` cast leaves values below 2^63 unchanged and otherwise saturates: it never exceeds the input, and when it differs it is `Long.MAX_VALUE` |
| Subtitles.SubtilesSaxParser.constructor | src/main/java/com/minimalgap/transformer/subtitles/SubtilesSAXParser.java:49-63 | a new handler has an empty list, count 0, no timebase, no open subtitle, both flags down, and keeps the destination path |
| Subtitles.SubtilesSaxParser.StartElement | src/main/java/com/minimalgap/transformer/subtitles/SubtilesSAXParser.java:124-139 | the fields and outcome change exactly as `StartStep` says: the buffer empties; a `generatoritem` opens subtitle `count+1` with the `type` attribute as text; otherwise the root check runs once |
| Subtitles.SubtilesSaxParser.EndElement | src/main/java/com/minimalgap/transformer/subtitles/SubtilesSAXParser.java:141-169 | the fields and outcome change exactly as `EndStep` says, a throwing branch leaving every field as it was |
| Subtitles.SubtilesSaxParser.Characters | src/main/java/com/minimalgap/transformer/subtitles/SubtilesSAXParser.java:171-173 | the buffer grows by exactly `ch[start..start+length)` and nothing else changes |
| Subtitles.FormatTime | src/main/java/com/minimalgap/transformer/subtitles/SubtilesSAXParser.java:113-121 | a frame count that is not a number fails as `BadNumber` before the timebase is looked at; a numeric count with no timebase fails as `MissingTimebase`; the call succeeds iff both are numbers and the timebase is not zero |
| ExtractionProperties.MillisecondsSplit | src/main/java/com/minimalgap/transformer/subtitles/SubtilesSAXParser.java:114-118 | the whole seconds and the truncated thousandths together are the truncated number of milliseconds `frames*1000/tb` |
| ExtractionProperties.FormatTimeOk | src/main/java/com/minimalgap/transformer/subtitles/SubtilesSAXParser.java:113-121 | for a numeric frame count and a positive numeric timebase `formatTime` succeeds and returns the `Timestamp` text |
| ExtractionProperties.TimestampMilliseconds | src/main/java/com/minimalgap/transformer/subtitles/SubtilesSAXParser.java:113-121 | below 2^63 seconds, where the `(long)` cast is exact, the text is the truncated number of milliseconds `M = frames*1000/tb` written as the clock of `M/1000` seconds, a comma, and `M%1000` in plain decimal, which is exactly the truncated thousandths `Fractional` |
| ExtractionProperties.TimestampRoundTrip | src/main/java/com/minimalgap/transformer/subtitles/SubtilesSAXParser.java:120 | a timestamp `clock,fraction` reads back as `seconds*1000 + fraction` |
| ExtractionProperties.FormatTimeErrors | src/main/java/com/minimalgap/transformer/subtitles/SubtilesSAXParser.java:113-121 | `formatTime` fails as `BadNumber` iff the frame count, or a present timebase, is not a number, and as `ZeroTimebase` iff both are numbers and the timebase is 0 |
| ExtractionProperties.StepAppends | src/main/java/com/minimalgap/transformer/subtitles/SubtilesSAXParser.java:142-146 | the list changes only when a `generatoritem` closes, by appending the open subtitle (null if none) and closing it |
| ExtractionProperties.StepBuffer | src/main/java/com/minimalgap/transformer/subtitles/SubtilesSAXParser.java:125-172 | start events and non-throwing end events empty the buffer; a throwing end event changes nothing; characters append exactly their text |
| ExtractionProperties.StepRootCheck | src/main/java/com/minimalgap/transformer/subtitles/SubtilesSAXParser.java:126-138 | once set the root flag stays set and starts never fail; before that, a non-`generatoritem` start passes iff it is `sequence`/`xmeml`, and only that sets the flag; a `generatoritem` start never fails |
| ExtractionProperties.StepTimebase | src/main/java/com/minimalgap/transformer/subtitles/SubtilesSAXParser.java:147-148 | closing `timebase` stores the buffer; no other event changes the timebase |
| ExtractionProperties.TimeFieldClose | src/main/java/com/minimalgap/transformer/subtitles/SubtilesSAXParser.java:149-156 | closing `start`/`end` without an open subtitle only empties the buffer; with one it sets that time from `formatTime`, or throws and changes nothing |
| ExtractionProperties.ParameterIdClose | src/main/java/com/minimalgap/transformer/subtitles/SubtilesSAXParser.java:157-160 | closing `parameterid` raises the caption flag iff the buffer reads `str` in any case, and never lowers it |
| ExtractionProperties.ValueClose | src/main/java/com/minimalgap/transformer/subtitles/SubtilesSAXParser.java:161-165 | closing `value` does nothing without the flag; with it the open subtitle's text becomes the buffer and the flag drops; with no subtitle open it throws |
| ExtractionProperties.FlagOutlivesCue | src/main/java/com/minimalgap/transformer/subtitles/SubtilesSAXParser.java:142-146 | closing a cue leaves the caption flag as it was |
| ExtractionProperties.RunAppends | src/main/java/com/minimalgap/transformer/subtitles/SubtilesSAXParser.java:142-146 | over any run the old list is a prefix of the new one, and a run that does not throw adds one entry per `generatoritem` close |
| ExtractionProperties.StepKeepsIdsDense | src/main/java/com/minimalgap/transformer/subtitles/SubtilesSAXParser.java:126-146 | with non-nested cues, each callback keeps the ids 1..N dense, the counter equal to collected plus open cues, and the open cue numbered by the counter |
| ExtractionProperties.RunKeepsIdsDense | src/main/java/com/minimalgap/transformer/subtitles/SubtilesSAXParser.java:126-146 | the same invariant holds across a whole run of non-nested cues |
| ExtractionProperties.RunIdsDense | src/main/java/com/minimalgap/transformer/subtitles/SubtilesSAXParser.java:128-144 | from a fresh handler, a document without nested cues collects no null entry and numbers the subtitles 1, 2, ... in document order |
| ExtractionProperties.NestedGeneratorItem | src/main/java/com/minimalgap/transformer/subtitles/SubtilesSAXParser.java:126-146 | a cue opened inside another replaces it, so the outer cue is lost; the two closes append the inner cue and then null |
| ExtractionProperties.RunRootOnce | src/main/java/com/minimalgap/transformer/subtitles/SubtilesSAXParser.java:133-138 | after the root is validated no later event fails the root check |
| ExtractionProperties.WrongRootRejected | src/main/java/com/minimalgap/transformer/subtitles/SubtilesSAXParser.java:133-136 | a document whose first element is not `sequence`, `xmeml` or `generatoritem` fails at once with nothing collected |
| ExtractionProperties.StartInsideRoot | src/main/java/com/minimalgap/transformer/subtitles/SubtilesSAXParser.java:124-139 | inside a validated root, opening any element other than `generatoritem` only empties the buffer |
| ExtractionProperties.LatestTimebaseUsed | src/main/java/com/minimalgap/transformer/subtitles/SubtilesSAXParser.java:147-152 | the last `timebase` seen is the one used to convert a following start time, whatever came before |
| ExtractionProperties.RunKeepsTimebase | src/main/java/com/minimalgap/transformer/subtitles/SubtilesSAXParser.java:147-148 | a run with no `timebase` close, passing or throwing, leaves the timebase as it was |
| ExtractionProperties.TimebaseElement | src/main/java/com/minimalgap/transformer/subtitles/SubtilesSAXParser.java:147-148 | inside a validated root a `timebase` element stores its text as the timebase and empties the buffer, changing nothing else |
| ExtractionProperties.StartTimeElement | src/main/java/com/minimalgap/transformer/subtitles/SubtilesSAXParser.java:149-152 | inside a validated root a `start` element ends as its close would with the element's text in the buffer |
| ExtractionProperties.LatestTimebaseAcross | src/main/java/com/minimalgap/transformer/subtitles/SubtilesSAXParser.java:147-152 | after a `timebase` element and any events closing no other `timebase`, the timebase is that element's text; a following `start` converts its frame count with it into the open cue, or throws with `formatTime`'s error; a throw in between ends the parse |
| ExtractionProperties.EndOther | src/main/java/com/minimalgap/transformer/subtitles/SubtilesSAXParser.java:166-168 | closing an element the handler does not look at only empties the buffer |
| ExtractionProperties.StepTextParent | src/main/java/com/minimalgap/transformer/subtitles/SubtilesSAXParser.java:157-165 | the caption flag is raised only by a `parameterid` close whose buffer reads `str`, and lowered only by a `value` close with a subtitle open |
| ExtractionProperties.RunConcat | src/main/java/com/minimalgap/transformer/subtitles/SubtilesSAXParser.java:72-80 | the parser delivers callbacks in document order and an exception ends the parse: running `a + b` is running `a`, then `b` from there unless `a` threw |
| ExtractionProperties.StepKeepsCaption | src/main/java/com/minimalgap/transformer/subtitles/SubtilesSAXParser.java:124-173 | a callback that neither opens nor closes a cue nor closes `parameterid` or `value` keeps the flag, a validated root, and the open cue's id and text |
| ExtractionProperties.RunKeepsCaption | src/main/java/com/minimalgap/transformer/subtitles/SubtilesSAXParser.java:124-173 | the same across a whole run of such callbacks |
| ExtractionProperties.StepKeepsText | src/main/java/com/minimalgap/transformer/subtitles/SubtilesSAXParser.java:141-169 | with the flag down and a cue open, a callback that neither opens nor closes a cue nor closes a `parameterid` reading `str` keeps the flag down and the cue's id and text |
| ExtractionProperties.RunKeepsText | src/main/java/com/minimalgap/transformer/subtitles/SubtilesSAXParser.java:126-165 | a cue keeps the text taken from its `type` attribute across any run without a `parameterid` reading `str`, other generator parameters and their `value`s included, and the flag stays down |
| ExtractionProperties.ParameterIdRaisesFlag | src/main/java/com/minimalgap/transformer/subtitles/SubtilesSAXParser.java:157-160 | inside a validated root a `parameterid` element reading `str` in any case raises the flag and empties the buffer, changing nothing else |
| ExtractionProperties.ValueSetsCaption | src/main/java/com/minimalgap/transformer/subtitles/SubtilesSAXParser.java:161-165 | with the flag up and a cue open, a `value` element sets the cue's text to its content and lowers the flag |
| ExtractionProperties.CaptionOverride | src/main/java/com/minimalgap/transformer/subtitles/SubtilesSAXParser.java:157-165 | `parameterid` = `str` followed by `value` replaces the open subtitle's text with the value's text and lowers the flag |
| ExtractionProperties.CaptionOverrideAcross | src/main/java/com/minimalgap/transformer/subtitles/SubtilesSAXParser.java:157-165 | the same with any such callbacks in between (a `name` element, say): if they do not throw, the `value` sets the text of the cue with the same id and lowers the flag; if they throw, the parse stops there |

## Left out

- `handleSubtitleTransformation` (SubtilesSAXParser.java:72-80) is not modelled: it creates the JDK SAX parser and reads a file. The parser's callbacks are a sequence of `Event` values here, and the `synchronized` modifier has no counterpart.
- `printSubtitlesList` and `endDocument` (SubtilesSAXParser.java:91-111, 175-177) are not modelled: they write the `.srt` file and log errors. The `uri` and `localName` parameters and the logger are dropped as well.
- `getCurrentTimeFormatted`, `getCurrentShortData`, `getCurrentTime`, both `toXMLGregorianCalendar`, both `toString`, `toShortString`, `toStdString`, `getYear`, `getMonth`, `getDay`, both `toShortDate` and `toDate` are not modelled. They read the clock or delegate to `SimpleDateFormat`, `Calendar` and `XMLGregorianCalendar`, which are not part of this model.
- Subtitles.FormatTime works on exact integers. Java divides two doubles and truncates, so its thousandths are never higher than the model's and can be one lower. That happens only when the exact thousandths are a whole number (`(frames % tb) * 1000` divisible by `tb`) and the double quotient falls just below it: for 29 frames at timebase 25 Java writes `00:00:01,159`, the model `00:00:01,160`. Worked out in IEEE double arithmetic for frame counts below 200000, this affects about 48% of counts at 25 and 50 frames per second, about 13% at 30 and 60, and none at 24. Frame counts above 2^53 lose precision in Java as well.
- Subtitles.FormatTime accepts only unsigned decimal digit strings as numbers. Other texts `new Double` accepts give `BadNumber`, where the source carries on: a signed count such as `-1` or `+5`, decimals, exponents, surrounding blanks.
- Subtitles.FormatTime reports a zero timebase as `ZeroTimebase`. In Java the division gives Infinity or NaN, which the casts turn into `Long.MAX_VALUE` or 0 with no exception.
- Subtitles.FormatTime writes the thousandths unpadded (`1,5` for 1.005 s), as the source does.
- ExtractionProperties.TimestampMilliseconds requires fewer than 2^63 seconds; above that the `(long)` cast saturates. ExtractionProperties.TimestampRoundTrip requires fewer than 2^31 hours, because above that `convertSecondsInTime` wraps the hour field; `SecondsInTime` models the wrap, but no property is stated about it.
- TimeUtils.MillisecondInTimeRoundTrip and TimeUtils.MicrosecondInTimeRoundTrip state nothing for negative inputs; `SecondsInTime` models them with truncating division and a leading `-`.
- Subtitles.SubtilesSaxParser: `count` is an unbounded natural; the Java `Integer` would wrap after 2^31 - 1 cues.
- Subtitles.SubtilesSaxParser: the buffer starts empty instead of null; `characters` before any element would throw in Java.
- Lengths and offsets count characters (Unicode scalar values), not Java's UTF-16 code units. Text outside the Basic Multilingual Plane is therefore padded and sliced differently: `normalizeShortDate` leaves a one-emoji month alone in Java (length 2) but the model pads it, the year loop differs the same way, and the `start`/`length` of `characters` are character offsets here.
- Null boxed `Integer` arguments to `convertMillisecondInTime` and `convertMicrosecondInTime` (TimeUtils.java:203, 209) are not modelled: unboxing a null throws in Java, while the model's `Int32` cannot be null.
- Null `String` arguments and null attribute maps are not modelled.
- `equalsIgnoreCase` folds ASCII letters only; the Unicode case mappings Java also applies are not modelled.
- The caption flag is not lowered when a cue closes, because the code does not lower it (SubtilesSAXParser.java:142-146). A `parameterid` reading `str` in one cue therefore carries over to the next `value` (`FlagOutlivesCue`).
