# dateToString in Dafny

A model of `src/DateTimeFormatter.js`: `dateToString(format, date)`, a
strftime-style formatter, together with its helpers. The helpers are the four
name tables (`_getWeekdayLong`, `_getWeekdayShort`, `_getMonthLong`,
`_getMonthShort`) and the 12-hour conversion `_get12Hour`.

The project has three modules in three files.

- `jstext.dfy` (module `JsText`) holds the JavaScript built-ins the formatter
  uses:
  - the decimal rendering of an integer (`toString()` and `string + number`),
    with a reference reading `DecimalValue` that the rendering is proved
    against;
  - `padStart(2, '0')`;
  - `slice(-2)`.
- `formatter.dfy` (module `DateTimeFormatter`) holds the formatter itself.
  - The date is an immutable record of the fields the formatter reads.
  - The name tables return a `Result`, where `Failure` carries the exact string
    the JavaScript lookup throws.
  - `Dispatch` is the `switch` of the scanner. It returns an `Edit`: `Append`
    for the `+=` cases, `Assign` for the `=+` of `%P` and `%p`.
  - `Render` is the reference semantics. The format is read into `Tokens`
    (a literal character, or `%` with the character after it), and the tokens
    are applied to the output in order.
  - The method `DateToString` is the `while` loop of `dateToString`, including the
    `++i` inside its condition. It is proved to return exactly `Render`.
- `properties.dfy` (module `FormatterProperties`) holds what the scanner and
  the switch promise, proved about `Render`.

The model follows the code as written, including these behaviours:

- A lone `%` at the end of the format is copied to the output. The `++i < LENGTH`
  test fails, so the `else` branch appends it.
- `%P` and `%p` replace everything rendered so far. `output =+ cond ? 'am' : 'pm'`
  parses as an assignment of the conditional, and `+(true)` is truthy, so the
  strings are the intended ones.
- `%m`, `%D` and `%F` show the 0-based month: January is `00`.
- `%e` is the day with no padding.
- There is no case for `%f`, `%z` or any other unlisted character. They fall
  to the default and come out as `%` and the character.
- `%s` is `getTime()`, in milliseconds.

Several of these differ from what a strftime user would expect, and the model
keeps them as the code has them. A trailing `%` is kept, not dropped.
`getMonth()` is 0-based and is printed without adding one. `%e` is unpadded;
line 75 keeps the space-padded version commented out. There is no `%f` and no
`%z` case.

## Model

| member | source | states |
|---|---|---|
| DateTimeFormatter.DateToString | src/DateTimeFormatter.js:5-121 | The scanner loop returns exactly the reference rendering `Render(format, date)`, including a throw from a name lookup; the loop terminates even when the index steps past the end after a trailing `%`. |
| DateTimeFormatter.WeekdayLong | src/DateTimeFormatter.js:123-149 | Succeeds exactly for 0..6; every other index fails with "Illegal value for dayAsInt.". |
| DateTimeFormatter.WeekdayShort | src/DateTimeFormatter.js:151-177 | Succeeds exactly for 0..6; every other index fails with "Illegal value for dayAsInt.". |
| DateTimeFormatter.MonthLong | src/DateTimeFormatter.js:179-220 | Succeeds exactly for 0..11; every other index fails with "Illegal value for monthAsInt.". |
| DateTimeFormatter.MonthShort | src/DateTimeFormatter.js:222-263 | Succeeds exactly for 0..11; every other index fails with "Illegal value for monthAsInt.". |
| DateTimeFormatter.Get12Hour | src/DateTimeFormatter.js:265-275 | Agrees with the hour modulo 12, lies in 1..12 for every hour of the day, leaves 1..12 unchanged, and subtracts 12 from every hour above 12. |
| DateTimeFormatter.Dispatch | src/DateTimeFormatter.js:15-112 | Only `%P` and `%p` assign instead of appending; a directive throws exactly when it is a weekday name with the weekday outside 0..6 or a month name with the month outside 0..11. |
| DateTimeFormatter.DispatchUnknown | src/DateTimeFormatter.js:109-111 | A character with no case gives back `%` followed by that character. |
| DateTimeFormatter.TokensAt | src/DateTimeFormatter.js:11-14 | One scanner step: `%` with a character after it is read as a directive, anything else (a final `%` included) as one literal character. |
| FormatterProperties.UntokenizeOfTokens | src/DateTimeFormatter.js:11-18 | Writing the scanned tokens back out gives the format, and a literal `%` can only be the last token. |
| FormatterProperties.TokensOfUntokenize | src/DateTimeFormatter.js:11-18 | Scanning the text of a well-formed token sequence gives back that sequence. |
| FormatterProperties.BoundaryIsLastToken | src/DateTimeFormatter.js:14 | A format ends on a token boundary exactly when its last token is not an unpaired `%`. |
| FormatterProperties.TokensConcat | src/DateTimeFormatter.js:11-18 | A format ending on a token boundary is scanned independently of what follows it. |
| FormatterProperties.PerformConcat | src/DateTimeFormatter.js:11-18 | Applying two token sequences in a row is applying the second to the output of the first, unless the first throws. |
| FormatterProperties.RenderSplit | src/DateTimeFormatter.js:11-18 | Rendering a format split at a token boundary continues from the output of the first part; a throw in the first part ends the rendering. |
| FormatterProperties.PerformPlain | src/DateTimeFormatter.js:113-117 | Characters other than `%` are appended to the output one by one. |
| FormatterProperties.PlainEndsOnTokenBoundary | src/DateTimeFormatter.js:113-117 | Text without `%` ends on a token boundary and scans to literals only. |
| FormatterProperties.PlainTextIdentity | src/DateTimeFormatter.js:11-18 | A format without `%` is returned unchanged for every date. |
| FormatterProperties.LiteralInsertion | src/DateTimeFormatter.js:113-117 | Text without `%` inserted at a token boundary appears in the output at that point and leaves the rest of the rendering unaffected. |
| FormatterProperties.PerformAppends | src/DateTimeFormatter.js:15-112 | Tokens that neither assign nor throw add their output after whatever was already there. |
| FormatterProperties.RenderConcat | src/DateTimeFormatter.js:11-18 | When the second part neither assigns nor throws, rendering a concatenation appends the second part's rendering to the first's. |
| FormatterProperties.SingleDirective | src/DateTimeFormatter.js:14-15 | A format that is one directive renders as that directive's substitution, or throws what the substitution throws. |
| FormatterProperties.UnknownDirectivePassesThrough | src/DateTimeFormatter.js:109-111 | `%` followed by a character `x` outside `KnownDirectives` renders as itself, `%` then `x`. |
| FormatterProperties.UnimplementedDirectives | src/DateTimeFormatter.js:109-111 | `%f`, `%z` and `%q` render as themselves. |
| FormatterProperties.TrailingPercentKept | src/DateTimeFormatter.js:14 | A `%` appended to a complete format is appended to its output. |
| FormatterProperties.TrailingPercentExample | src/DateTimeFormatter.js:113-117 | `abc%` renders as `abc%`. |
| FormatterProperties.MeridiemDirectives | src/DateTimeFormatter.js:41-43 | `%P` renders as "am" before noon and "pm" from noon; `%p` as "AM" and "PM". |
| FormatterProperties.AssignDiscardsEarlierOutput | src/DateTimeFormatter.js:87-89 | `f1 + "%P" + f2` renders as `"%P" + f2` when `f1` ends on a token boundary, and likewise for `%p`; only a throw inside `f1` survives. |
| FormatterProperties.PerformThrowsIff | src/DateTimeFormatter.js:11-18 | Applying tokens throws exactly when one of them is a name directive out of range; the thrown string is the message of the first such token ("Illegal value for dayAsInt." for `%A`/`%a`, "Illegal value for monthAsInt." for `%B`/`%b`). |
| FormatterProperties.FirstThrowOfTail | src/DateTimeFormatter.js:11-18 | When the first token does not throw, the first throwing token of the rest is the first throwing token of the whole. |
| FormatterProperties.RenderThrowsIff | src/DateTimeFormatter.js:16-20 | The formatter throws exactly when the format holds a weekday-name directive with the weekday out of range, or a month-name directive with the month out of range. It throws the message of the first such directive, so only the month message when the weekday is valid and only the weekday message when the month is valid. |
| FormatterProperties.ThrowOrderExample | src/DateTimeFormatter.js:16-20 | With both fields out of range, `%B%A` throws the month message and `%A%B` the weekday message. |
| FormatterProperties.ValidDateNeverThrows | src/DateTimeFormatter.js:16-67 | With a weekday in 0..6 and a month in 0..11, no format throws. |
| FormatterProperties.ShortNamesArePrefixes | src/DateTimeFormatter.js:123-263 | Each short weekday and month name is the first three letters of the long one. |
| FormatterProperties.NamesAreDistinct | src/DateTimeFormatter.js:123-263 | Different indices map to different names in each table. |
| FormatterProperties.TwelveHourRoundTrip | src/DateTimeFormatter.js:265-275 | For every hour 0..23, the 12-hour hour and the AM/PM marker recover the hour. |
| FormatterProperties.PaddedDirective | src/DateTimeFormatter.js:32-34 | A directive that pads a value in 0..99 renders its two decimal digits. |
| FormatterProperties.PaddedFields | src/DateTimeFormatter.js:32-73 | `%H`, `%M`, `%S` and `%d` render a value in 0..99 as exactly its two digits. |
| FormatterProperties.UnpaddedDirective | src/DateTimeFormatter.js:59-102 | A directive that appends the decimal text of a value renders as text that reads back as that value, with a minus sign when it is negative. |
| FormatterProperties.YearDirective | src/DateTimeFormatter.js:59-61 | `%Y` reads back as the full year, for every date. |
| FormatterProperties.DayOfMonthDirective | src/DateTimeFormatter.js:74-77 | `%e` reads back as the day of the month, with no padding. |
| FormatterProperties.WeekdayNumberDirective | src/DateTimeFormatter.js:100-102 | `%w` reads back as the weekday number. |
| FormatterProperties.HourDirective | src/DateTimeFormatter.js:78-80 | `%k` reads back as the hour, with no padding. |
| FormatterProperties.TwelveHourDirective | src/DateTimeFormatter.js:81-83 | `%l` reads back as the 12-hour hour, with no padding. |
| FormatterProperties.EpochDirective | src/DateTimeFormatter.js:97-99 | `%s` reads back as the milliseconds since the epoch. |
| FormatterProperties.MonthIsZeroBased | src/DateTimeFormatter.js:84-86 | `%m` is two digits that read back as the 0-based month; January is "00". |
| FormatterProperties.HourMinuteShape | src/DateTimeFormatter.js:45-46 | The `%R` text is five characters with `:` at index 2, around the two padded fields. |
| FormatterProperties.HourMinuteLayout | src/DateTimeFormatter.js:44-47 | `%R` has length 5, `:` at index 2, and reads back as the hours and minutes. |
| FormatterProperties.ClockTimeShape | src/DateTimeFormatter.js:52-54 | The `%T` text is eight characters with `:` at indices 2 and 5, around the three padded fields. |
| FormatterProperties.ClockFieldsAt | src/DateTimeFormatter.js:52-54 | Where the three two-character parts of `HH:MM:SS` sit in the joined text. |
| FormatterProperties.ClockLayout | src/DateTimeFormatter.js:51-55 | `%T` has length 8, `:` at indices 2 and 5, and reads back as the hours, minutes and seconds. |
| FormatterProperties.TwelveHourTimeShape | src/DateTimeFormatter.js:91-95 | The `%r` text is `hh:mm:ss AM` or `hh:mm:ss PM`. Its hour field is the padded 12-hour hour, a value in 1..12, and together with the marker it recovers the hour of the day. |
| FormatterProperties.TimeFieldsAt | src/DateTimeFormatter.js:92-95 | Where the four two-character parts of `hh:mm:ss XM` sit in the joined text. |
| FormatterProperties.TwelveHourClockLayout | src/DateTimeFormatter.js:90-96 | `%r` has length 11 with fixed separators. Its hour field is exactly the `%I` rendering, a value in 1..12, and with the marker it gives back the hour of the day; its other fields give the minutes and seconds. |
| FormatterProperties.TwoDigitYear | src/DateTimeFormatter.js:106-108 | `%y` is the last two characters of the decimal year, or the whole of it when shorter; it is a cut of the text, not the year modulo 100. |
| FormatterProperties.DateFieldsAt | src/DateTimeFormatter.js:23-25 | Where the month, the day and the year of `MM/DD/YY` sit in the joined text. |
| FormatterProperties.SlashDateShape | src/DateTimeFormatter.js:23-25 | The `%D` text is the padded 0-based month, `/`, the padded day, `/`, then the two-digit year. |
| FormatterProperties.SlashDateLayout | src/DateTimeFormatter.js:22-26 | `%D` reads back as the 0-based month and the day at fixed positions, followed by exactly the `%y` rendering. |
| FormatterProperties.LocaleDirectives | src/DateTimeFormatter.js:56-105 | `%c`, `%x` and `%X` splice in the platform's locale renderings unchanged. |
| FormatterProperties.JoinRendered | src/DateTimeFormatter.js:11-18 | Two complete formats that only append render, joined, as their joined renderings. |
| FormatterProperties.BoundaryConcat | src/DateTimeFormatter.js:14 | After a complete format, the boundary of a concatenation is that of the second part. |
| FormatterProperties.PlainPiece | src/DateTimeFormatter.js:113-117 | Text without `%` renders as itself and only appends. |
| FormatterProperties.DirectivePiece | src/DateTimeFormatter.js:15-112 | A single appending directive renders as its substitution and only appends. |
| FormatterProperties.FieldThen | src/DateTimeFormatter.js:15-112 | A directive and a separator in front of an appending format render as the substitution, the separator, then that format's output. |
| FormatterProperties.TwoFields | src/DateTimeFormatter.js:15-112 | Two appending directives around a separator render as their substitutions around that separator. |
| FormatterProperties.ThreeFields | src/DateTimeFormatter.js:15-112 | Three appending directives with separators render as their substitutions with those separators. |
| FormatterProperties.DashDateFields | src/DateTimeFormatter.js:28-30 | `%Y-%m-%d` renders as the `%F` text. |
| FormatterProperties.DashDateIsShorthand | src/DateTimeFormatter.js:27-31 | `%F` renders exactly as `%Y-%m-%d`. |
| FormatterProperties.SlashDateFields | src/DateTimeFormatter.js:23-25 | `%m/%d/%y` renders as the `%D` text. |
| FormatterProperties.SlashDateIsShorthand | src/DateTimeFormatter.js:22-26 | `%D` renders exactly as `%m/%d/%y`. |
| FormatterProperties.ClockTimeFields | src/DateTimeFormatter.js:52-54 | `%H:%M:%S` renders as the `%T` text. |
| FormatterProperties.ClockTimeIsShorthand | src/DateTimeFormatter.js:51-55 | `%T` renders exactly as `%H:%M:%S`. |
| FormatterProperties.HourMinuteFields | src/DateTimeFormatter.js:45-46 | `%H:%M` renders as the `%R` text. |
| FormatterProperties.HourMinuteIsShorthand | src/DateTimeFormatter.js:44-47 | `%R` renders exactly as `%H:%M`. |
| FormatterProperties.Year2024 | src/DateTimeFormatter.js:60 | The year 2024 renders as "2024". |
| FormatterProperties.DashDateExample | src/DateTimeFormatter.js:29 | `%Y-%m-%d` on 5 January 2024 gives "2024-00-05". |
| FormatterProperties.ClockExample | src/DateTimeFormatter.js:51-55 | `%H:%M:%S` at 00:05:09 gives "00:05:09". |
| FormatterProperties.MidnightExample | src/DateTimeFormatter.js:35-37 | At hour 0, `%I` and `%l` give "12" and `%p` gives "AM". |
| FormatterProperties.AfternoonExample | src/DateTimeFormatter.js:81-83 | At hour 13, `%I` gives "01", `%l` gives "1" and `%P` gives "pm". |
| FormatterProperties.NameExample | src/DateTimeFormatter.js:16-21 | Weekday 0 gives "Sunday" and "Sun"; month 11 gives "December" and "Dec". |
| FormatterProperties.DayExample | src/DateTimeFormatter.js:74-77 | On day 5, `%e` gives "5" and `%d` gives "05". |
| JsText.DigitChar | src/DateTimeFormatter.js:23 | The digit character for 0..9 is a digit that reads back as that value. |
| JsText.NatToStringValue | src/DateTimeFormatter.js:60 | The decimal rendering of a non-negative integer is a non-empty string of digits, without a leading zero, that reads back as the number; it is one digit exactly below 10. |
| JsText.IntToStringValue | src/DateTimeFormatter.js:79 | The rendering of an integer is its digits, after a minus sign when negative, and reads back as the integer. |
| JsText.Repeat | src/DateTimeFormatter.js:33 | `n` copies of the fill character. |
| JsText.PadStartShape | src/DateTimeFormatter.js:33 | `padStart` leaves a long enough string unchanged and otherwise puts fill characters in front, up to exactly the target length. |
| JsText.SliceLastTwoShape | src/DateTimeFormatter.js:107 | `slice(-2)` is the suffix of length two, or the whole string when shorter. |
| JsText.TwoDigits | src/DateTimeFormatter.js:72 | A value in 0..99 pads to exactly its two decimal digits. |

## Left out

- The `new Date()` default of the `date` parameter reads the host clock. The model always takes the date as an argument.
- The calendar getters (`getDay`, `getMonth`, `getTime` and the rest) are not modelled. Their results are fields of the date record, not derived from the epoch time.
- `toLocaleString`, `toLocaleDateString` and `toLocaleTimeString` are platform renderers. Their results are opaque strings in the record; the model only shows that they are spliced in.
- JavaScript number formatting beyond integer decimals is not modelled: exponent notation from 1e21 upwards, and `NaN` for an invalid date. Every field is an unbounded integer rendered in plain decimal.
- `charAt` works on UTF-16 code units. The model works on Dafny characters.
- PaddedFields: stated for values 0..99, the range in which padding gives exactly two digits. Real hours, minutes, seconds and days lie inside it.
