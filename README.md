# convtz: timestamp detection, timezone choice and UTC epochs

This project is a Dafny model of the core of `convtz_py3.py`, a small
command-line utility. It converts timestamps to epoch seconds and back, and it
picks timezones by substring. The model covers four parts of its class
`ConvertTimezone`:

- `pick_a_timezone` and `list_timezones` (`zones.dfy`). The host's timezone
  catalog (`pytz.all_timezones`) becomes a `seq<string>` parameter, kept in
  its enumeration order. A filter is an `Option<string>`, where `None` is
  Python's `None`.
- The format-detection loop of `parse_timeformat` (`formats.dfy`). It tries
  seven `(regex, strptime format)` pairs top to bottom, and the first match
  wins. When nothing matches, it falls back to the text
  `1970-01-01 00:00:00`. The regexes are written as sequences of
  character-class elements `class{min,max}`, which `patterns.dfy` matches at
  the start of the input.
- `datetime.strptime` and `strftime`, for the directives these formats use
  (`strptime.dfy`).
- The civil-time arithmetic of `calendar.timegm`, and its inverse, which
  renders an epoch as UTC fields (`civil.dfy`).

`convtz.dfy` puts these together as `ParseTimeformat`. It returns three
things:
- the zone it picks;
- whether the "could not parse" notice is printed;
- the epoch that is handed on to `covert_epochtime`.

It also models the UTC line that `covert_epochtime` prints for that epoch.

The zone database is not part of this model. A zone's localisation is a
parameter `offset: string -> int`, giving the seconds that zone's clock runs
ahead of UTC, fixed for all dates. Under the default zone `UTC` the offset is
0, and the conversion is exactly `timegm`.

In three places the code behaves differently from what one might expect from
the tool's description. The model follows the code in each:

- The seventh format never yields an epoch. Its regex (`convtz_py3.py:119`)
  wants a blank before the clock, but its `strptime` format wants a colon.
  - Text that the seventh regex captures is therefore always rejected by
    `strptime` (`AccessLogQuirk`).
  - The docstring's own example `02/May/2016:14:59:39` matches no regex at
    all, so it falls back to epoch zero (`AccessLogDocstringExample`).
- A timestamp that a regex matches but whose fields are out of range, such as
  month 13 or 31 February, makes `strptime` raise. The model returns
  `Err(BadTimestamp(...))` for it; no fallback is taken. For formats 1 to 6,
  fields that each lie in their directive's range but do not make a valid
  date-time (31 February, second 60, year 0) end in
  `Err(BadTimestamp(OutOfRange))` (`OutOfRangeTimestamp`,
  `February31Example`).
- The fallback text is read as wall-clock time of the picked zone. It is
  epoch zero only in a zone with no offset (`FallbackEpochZero`).

## Model

| member | source | states |
|---|---|---|
| Zones.Matching | convtz_py3.py:38-40 | the zones `list_timezones` prints, in catalog order; `MatchingMembers`, `MatchingEmptyIff`, `MatchingAppend` and `MatchingEverything` state what it holds |
| Zones.ContainsIff | convtz_py3.py:53 | `filter in zone` holds exactly when the filter occurs in the zone name at some offset |
| Zones.ContainsEmpty | convtz_py3.py:39 | the empty filter occurs in every zone name |
| Zones.MatchingAppend | convtz_py3.py:38-40 | the list of matching zones of a concatenated catalog is the concatenation of the two lists, so catalog order is kept |
| Zones.MatchingMembers | convtz_py3.py:38-40 | a zone is listed if and only if it is in the catalog and contains the filter |
| Zones.MatchingEmptyIff | convtz_py3.py:38-40 | nothing is listed if and only if no catalog entry contains the filter |
| Zones.MatchingEverything | convtz_py3.py:34-40 | the empty filter lists the whole catalog, in order |
| Zones.ListTimezones | convtz_py3.py:29-40 | the loop emits exactly the catalog entries containing the filter, in catalog order; the filter is `"US"` when none is given |
| Zones.PickZone | convtz_py3.py:47-56 | the zone `pick_a_timezone` returns; `PickWithoutFilter`, `PickFirstMatch`, `PickNoMatch` and `PickIsUtcOrMember` state which one it is |
| Zones.PickWithoutFilter | convtz_py3.py:47-51 | an absent or empty filter picks `"UTC"`, whatever the catalog holds |
| Zones.PickFirstMatch | convtz_py3.py:51-55 | with a non-empty filter, the pick is the entry at the smallest index that contains it, when no earlier entry does |
| Zones.PickNoMatch | convtz_py3.py:47-56 | a filter that no entry contains picks `"UTC"` |
| Zones.PickIsUtcOrMember | convtz_py3.py:47-56 | the pick is `"UTC"` or a catalog entry that contains the filter |
| Zones.PickTimezone | convtz_py3.py:43-56 | the loop, which breaks at the first hit, returns the zone that `PickZone` specifies |
| Patterns.MatchPrefix | convtz_py3.py:125 | `re.match` of a regex at the start of the timestamp; `MatchSpells`, `MatchComplete` and `MatchLongest` state what it captures |
| Patterns.Run | convtz_py3.py:113-119 | a greedy repetition takes only characters of its class, at most `max` of them, and stops only at the bound, at the end of the text, or before a character outside the class |
| Patterns.MatchSpells | convtz_py3.py:125 | what `re.match` captures is a string the pattern spells: one run per element, each of a permitted length |
| Patterns.SpellsLength | convtz_py3.py:125 | a spelled string is no longer than the pattern's maximum length |
| Patterns.MatchAt | convtz_py3.py:125 | after fixed-width elements, the captured text holds a character of the next element's class at a fixed offset |
| Patterns.MatchComplete | convtz_py3.py:125-127 | for a determinate pattern, if any prefix of the input is spelled, the match succeeds and captures at least that prefix |
| Patterns.MatchLongest | convtz_py3.py:125 | for a determinate pattern, the match fails exactly when no prefix of the input is spelled, and otherwise captures the longest spelled prefix, which is within the pattern's maximum length |
| Strptime.MonthIndex | convtz_py3.py:142 | `%b` finds the month whose abbreviation equals the text ignoring case, or reports that none does |
| Strptime.NumberField | convtz_py3.py:142 | a numeric field (`%m`, `%d`, `%H`, `%M`, `%S`) takes one or two leading digits, and its value lies in the directive's range |
| Strptime.NumberFieldLongest | convtz_py3.py:142 | the field fails exactly when neither one nor two leading digits give a value in range; otherwise it reads the digits it takes, and takes one only when two would be out of range, as the ordered alternation `2[0-3]\|[0-1]\d\|\d` and its siblings do |
| Strptime.ReadDirective | convtz_py3.py:142 | how `strptime` reads one directive; `ReadPiece`, `NumberFieldLongest` and `MonthAbbrRoundTrip` state what it reads |
| Strptime.ReadFields | convtz_py3.py:142 | `strptime` of a text with a template, directive by directive, until the text is used up; for any text the regexes admit (one-digit clock fields, month names in any case, any whitespace for a blank) `NumberFieldLongest`, `MonthIndex` and `Patterns.Run` state what each directive reads; for `strftime` output `ReadFormatted` states what it records, `ParseFormat` and `ParseOutOfRange` when the parse succeeds and when it fails, and `SecondLeavesDigit` how seconds past 61 fail |
| Strptime.SecondLeavesDigit | convtz_py3.py:142 | a final `%S` facing two digits past 61 reads only the first one, and `strptime` fails with unconverted data |
| Strptime.Parse | convtz_py3.py:142 | a successful `strptime` gives a valid date-time in the years 1 to 9999; `ParseOutOfRange` states that fields read in range that do not make one are rejected as out of range |
| Strptime.Format | convtz_py3.py:83 | `strftime`; `FormatAppend`, `FormatAt`, `ParseFormat` and `FormatMatches` state what it writes |
| Strptime.Pad | convtz_py3.py:83 | a zero-padded field has exactly its width and only digits |
| Strptime.PadValue | convtz_py3.py:142 | the digits of a zero-padded field read back as its value |
| Strptime.Piece | convtz_py3.py:83 | each directive writes a fixed number of characters, for any fields in their directives' ranges |
| Strptime.FormatAppend | convtz_py3.py:83 | `strftime` of two templates joined is the two texts joined |
| Strptime.FormatAt | convtz_py3.py:83 | each character a directive writes sits at the same offset for every date |
| Strptime.MonthAbbrsDistinct | convtz_py3.py:113 | no two month abbreviations are equal ignoring case |
| Strptime.MonthAbbrRoundTrip | convtz_py3.py:113 | `%b` reads back the month it wrote |
| Strptime.ReadPiece | convtz_py3.py:142 | reading what one directive wrote gives that field and its width |
| Strptime.ReadFormatted | convtz_py3.py:142 | `strptime` consumes all of what `strftime` wrote with a well-formed template, recording each field, and then goes on with whatever template and text follow; this holds for any fields in their directives' ranges, whether or not they make a valid date-time |
| Strptime.RecordedFields | convtz_py3.py:142 | each field is taken from the text when the template has a directive for it, and otherwise keeps the default 1900-01-01 00:00:00 |
| Strptime.ReadAllFields | convtz_py3.py:142 | with a well-formed template that sets all fields, `strptime` reads back every field `strftime` wrote, for any fields in their directives' ranges |
| Strptime.ParseFormat | convtz_py3.py:142 | `strptime(strftime(d, t), t) == d` for every valid date-time and every well-formed template that sets all fields |
| Strptime.ParseOutOfRange | convtz_py3.py:142 | fields each in their directive's range that do not make a valid date-time in the years 1 to 9999 (31 February, second 60 or 61, year 0) are read and then rejected as out of range |
| FormatDetection.FirstMatch | convtz_py3.py:123-129 | the detection loop over the regex list; `FirstMatchIsFirst`, `FirstMatchNone` and `FirstMatchSome` state which format it returns |
| FormatDetection.Detect | convtz_py3.py:123-134 | the text and template handed to `strptime`; `DetectFirstMatch`, `DetectFallback` and `DetectCases` state which they are |
| FormatDetection.FirstMatchIsFirst | convtz_py3.py:124-129 | the first format whose regex matches wins, with the prefix it captures and its own template |
| FormatDetection.FirstMatchNone | convtz_py3.py:124-132 | the loop finds nothing if and only if no regex matches |
| FormatDetection.FirstMatchSome | convtz_py3.py:124-129 | a detection always comes from a matching format before which no other format matches |
| FormatDetection.DetectFirstMatch | convtz_py3.py:123-129 | the detected text is the prefix the first matching regex captures, paired with that format's template |
| FormatDetection.DetectFallback | convtz_py3.py:132-134 | when no regex matches, `1970-01-01 00:00:00` is parsed with `%Y-%m-%d %H:%M:%S` |
| FormatDetection.DetectCases | convtz_py3.py:123-134 | every detection is either the first match or the fallback |
| FormatDetection.DetectFormat | convtz_py3.py:122-135 | the loop, which breaks at the first match, returns the detection `Detect` specifies, and sets the notice exactly when no regex matches |
| FormatDetection.PieceFits | convtz_py3.py:112-119 | what `strftime` writes for a directive is a full run of the regex element that stands for it |
| FormatDetection.MatchPieces | convtz_py3.py:125 | a regex whose leading elements each take a whole piece of the text captures those pieces, and then what its remaining elements capture of what follows |
| FormatDetection.FormatMatches | convtz_py3.py:112-125 | a regex that fits a template captures exactly that template's `strftime` output, whatever follows |
| FormatDetection.FitsAppend | convtz_py3.py:112-119 | regex parts that fit template parts still fit when the parts are joined |
| FormatDetection.MonthNameConsistent | convtz_py3.py:113 | the first regex fits `%b %d, %Y %H:%M:%S`, which is well formed and sets every field |
| FormatDetection.DashSpaceConsistent | convtz_py3.py:114 | the same for the second format |
| FormatDetection.DashColonConsistent | convtz_py3.py:115 | the same for the third format |
| FormatDetection.DashTConsistent | convtz_py3.py:116 | the same for the fourth format |
| FormatDetection.SlashYmdConsistent | convtz_py3.py:117 | the same for the fifth format |
| FormatDetection.SlashMdyConsistent | convtz_py3.py:118 | the same for the sixth format |
| FormatDetection.FormatsConsistent | convtz_py3.py:113-118 | formats 1 to 6 are all consistent |
| FormatDetection.AccessLogInconsistent | convtz_py3.py:119 | the seventh regex does not fit its own template: it has a blank where the template has a colon |
| FormatDetection.MissAt | convtz_py3.py:125 | a regex fails when a character at a place it fixes is outside its class there |
| FormatDetection.Clash | convtz_py3.py:125 | a regex fails on `strftime` output whose character at a fixed place is outside the class the regex wants there |
| FormatDetection.MonthNameMisses | convtz_py3.py:113 | the first regex fails on any text that starts with a year |
| FormatDetection.SlashMdyMisses | convtz_py3.py:118 | formats 1 to 5 fail on `%m/%d/%Y %H:%M:%S` output |
| FormatDetection.SlashYmdMisses | convtz_py3.py:117 | formats 1 to 4 fail on `%Y/%m/%d %H:%M:%S` output |
| FormatDetection.DashSeparatorMisses | convtz_py3.py:114-116 | of the three dash formats, an earlier one fails on a later one's output |
| FormatDetection.DashMisses | convtz_py3.py:113-116 | no format before a dash format matches that format's output |
| FormatDetection.EarlierMiss | convtz_py3.py:112-118 | for formats 1 to 6, no earlier format matches the format's own output |
| FormatDetection.OwnFormatFound | convtz_py3.py:112-129 | for formats 1 to 6, a timestamp starting with the format's `strftime` output is detected by that format, which captures exactly that output, for any fields in their directives' ranges |
| FormatDetection.OwnFormatDetected | convtz_py3.py:112-142 | for formats 1 to 6, a timestamp starting with the format's `strftime` output is detected by that format, and `strptime` reads back the same date-time |
| FormatDetection.OwnFormatOutOfRange | convtz_py3.py:112-142 | for formats 1 to 6, such a timestamp whose fields are in their directives' ranges but do not make a valid date-time is detected by that format and rejected by `strptime` as out of range |
| FormatDetection.AccessLogMismatch | convtz_py3.py:119 | `%d/%b/%Y:%H:%M:%S` rejects any text shaped `dd/.../yyyy` followed by a blank |
| FormatDetection.AccessLogShapeDay | convtz_py3.py:119 | what the seventh regex spells starts with two digits, with slashes at offsets 2 and 6 |
| FormatDetection.AccessLogShapeYear | convtz_py3.py:119 | what the seventh regex spells has four digits at offsets 7 to 10, followed by a blank |
| FormatDetection.AccessLogRejected | convtz_py3.py:119 | whatever the seventh regex captures, `strptime` rejects with its template |
| FormatDetection.AccessLogBlankFits | convtz_py3.py:119 | the seventh regex fits `%d/%b/%Y %H:%M:%S` |
| FormatDetection.DayMonthEarlierMiss | convtz_py3.py:113-118 | formats 1 to 6 fail on a text that starts `dd/Mon/` |
| FormatDetection.AccessLogQuirk | convtz_py3.py:119 | a `dd/Mon/yyyy hh:mm:ss` timestamp is detected by the seventh format, which captures exactly that text; `strptime` then rejects it |
| FormatDetection.AccessLogOwnMiss | convtz_py3.py:119 | the seventh regex fails on its own template's output |
| FormatDetection.AccessLogOwnOutputFallsBack | convtz_py3.py:109 | a `dd/Mon/yyyy:hh:mm:ss` timestamp matches no regex, so the fallback text is parsed |
| FormatDetection.FormatsDeterminate | convtz_py3.py:113-119 | each of the seven regexes is determinate: every variable-width element but the last is followed by a literal outside its class |
| FormatDetection.FormatMatchLongest | convtz_py3.py:113-125 | for each of the seven regexes, the model's match fails exactly when no prefix of the timestamp is in the regex's language, and otherwise captures the longest prefix that is, which is what `re.match` returns |
| FormatDetection.SecondsDetected | convtz_py3.py:114-129 | a `yyyy-mm-dd hh:mm:` text followed by two digits is detected by the second format, which captures both digits |
| FormatDetection.SecondsPastRangeRejected | convtz_py3.py:114-142 | `strptime` with `%Y-%m-%d %H:%M:%S` rejects such a text whose seconds are past 61, leaving the last digit unconverted |
| Civil.Timegm | convtz_py3.py:147 | `calendar.timegm`; `CivilRoundTrip`, `EpochRoundTrip`, `TimegmInjective` and `TimegmInRange` state its meaning |
| Civil.DaysInMonth | convtz_py3.py:142 | every month has 28 to 31 days |
| Civil.YearLength | convtz_py3.py:147 | consecutive year starts are 365 days apart, or 366 in a Gregorian leap year |
| Civil.YearOf | convtz_py3.py:81 | the year found for a day number is one whose span holds that day |
| Civil.YearOfUnique | convtz_py3.py:81 | only one year's span holds a given day |
| Civil.MonthOf | convtz_py3.py:81 | the month found for a day of the year is one whose span holds that day |
| Civil.MonthOfUnique | convtz_py3.py:81 | only one month's span holds a given day of the year |
| Civil.DateOfDay | convtz_py3.py:81 | the date of a day number is valid, and its ordinal is that day |
| Civil.DateOfDayUnique | convtz_py3.py:81 | a valid date is the date of its own ordinal |
| Civil.UtcFields | convtz_py3.py:81 | the UTC fields of any epoch form a valid date-time |
| Civil.EpochRoundTrip | convtz_py3.py:78-83 | `timegm` of the UTC fields of an epoch is that epoch |
| Civil.CivilRoundTrip | convtz_py3.py:147 | the UTC fields of the `timegm` epoch of a valid date-time are that date-time |
| Civil.TimegmInjective | convtz_py3.py:147 | two valid date-times have the same `timegm` epoch if and only if they are equal |
| Civil.EpochBounds | convtz_py3.py:146-147 | 0001-01-01 00:00:00 is epoch -62135596800, and 9999-12-31 23:59:59 is epoch 253402300799 |
| Civil.YearRangeIff | convtz_py3.py:81 | the UTC year of an epoch lies in 1 to 9999 if and only if the epoch lies between those bounds |
| Civil.TimegmInRange | convtz_py3.py:146-147 | the epoch of a date-time in the years 1 to 9999 lies between those bounds |
| ConvertTimezone.DetectionEpoch | convtz_py3.py:140-147 | the epoch of a detected text in a zone; `EpochShowsWallClock`, `UtcEpoch` and `FallbackEpochZero` state its value |
| ConvertTimezone.TimestampEpoch | convtz_py3.py:123-147 | the epoch `parse_timeformat` computes; `OwnFormatEpoch`, `UtcLineRoundTrip` and `SecondsPastRangeTimestamp` state its value or its error, and `OutOfRangeTimestamp` its error for fields out of range |
| ConvertTimezone.UtcLine | convtz_py3.py:78-83 | the UTC line `covert_epochtime` prints; `UtcLineOfTimegm` and `UtcLineRoundTrip` state what it shows |
| ConvertTimezone.ParseTimeformat | convtz_py3.py:100-147 | returns the zone `pick_a_timezone` picks, sets the notice exactly when no regex matches, and returns the epoch of the detected text read in the picked zone, or the error `strptime` raised, or an overflow |
| ConvertTimezone.EpochShowsWallClock | convtz_py3.py:140-147 | the computed epoch, shifted by the zone's offset, renders as exactly the wall-clock time `strptime` read |
| ConvertTimezone.UtcEpoch | convtz_py3.py:142-147 | in a zone with no offset, a timestamp that `strptime` reads converts to its `timegm` epoch |
| ConvertTimezone.FallbackEpochZero | convtz_py3.py:132-147 | without a match, the result is epoch 0 in a zone with no offset |
| ConvertTimezone.FallbackIsEpochZero | convtz_py3.py:133-134 | the fallback text is the `strftime` output of 1970-01-01 00:00:00, whose `timegm` is 0 |
| ConvertTimezone.OwnFormatEpoch | convtz_py3.py:112-147 | in a zone with no offset, every format from 1 to 6 gives back the `timegm` epoch of the date-time it was written from |
| ConvertTimezone.OutOfRangeTimestamp | convtz_py3.py:112-142 | a timestamp that formats 1 to 6 write for fields in their directives' ranges that do not make a valid date-time ends in the out-of-range error of `strptime`, in any zone |
| ConvertTimezone.UtcLineOfTimegm | convtz_py3.py:78-83 | the UTC line of a date-time's epoch shows that date-time followed by ` UTC+0000` |
| ConvertTimezone.UtcLineRoundTrip | convtz_py3.py:78-83 | feeding the UTC line of an epoch back in as a timestamp, in a zone with no offset, gives the same epoch |
| ConvertTimezone.AccessLogTimestampRejected | convtz_py3.py:119 | a `dd/Mon/yyyy hh:mm:ss` timestamp ends in the error `strptime` raises, in any zone |
| ConvertTimezone.AccessLogDocstringFallsBack | convtz_py3.py:109 | a `dd/Mon/yyyy:hh:mm:ss` timestamp matches no regex and gives epoch 0 in a zone with no offset |
| ConvertTimezone.SecondsPastRangeTimestamp | convtz_py3.py:114-147 | a `yyyy-mm-dd hh:mm:ss` timestamp whose seconds are two digits past 61 ends in the unconverted-data error of `strptime`, in any zone |
| ConvertTimezone.DashSpaceExample | convtz_py3.py:104 | `2018-01-01 15:43:52` with no zone filter gives epoch 1514821432 |
| ConvertTimezone.DashSpaceExampleLine | convtz_py3.py:78-83 | the UTC line of epoch 1514821432 is `2018-01-01 15:43:52 UTC+0000` |
| ConvertTimezone.MonthNameExample | convtz_py3.py:103 | `Dec 18, 2018 15:43:52.504364000` with no zone filter gives epoch 1545147832; the fraction is not captured |
| ConvertTimezone.AccessLogDocstringExample | convtz_py3.py:109 | the docstring's `02/May/2016:14:59:39` matches no regex and gives epoch 0 |
| ConvertTimezone.AccessLogBlankExample | convtz_py3.py:119 | `02/May/2016 14:59:39` is captured by the seventh regex and rejected by `strptime` |
| ConvertTimezone.SecondsPastRangeExample | convtz_py3.py:114-147 | `2018-01-01 15:43:62` ends in the unconverted-data error: `%S` reads the `6` and leaves the `2` |
| ConvertTimezone.February31Example | convtz_py3.py:114-142 | `2018-02-31 00:00:00` is detected by the second format and ends in the out-of-range error, in any zone |

## Left out

- Zone localisation: `pytz.timezone`, `tz.localize` and `astimezone`, with daylight-saving rules and zone names (`convtz_py3.py:73-75`, `140-146`). They come from a foreign library whose tables are not visible. A zone is reduced to a fixed offset parameter, so an ambiguous or non-existent local time around a daylight-saving change is not modelled.
- The zone's own timestamp line (`convtz_py3.py:151`). Its `%Z%z` needs the zone database, so only the epoch it prints is modelled.
- The `America/New_York` and `US/Pacific` lines of `covert_epochtime` (`convtz_py3.py:78-83`), and the line for a chosen zone (`convtz_py3.py:70-75`). These also need the zone database; only the UTC line is modelled.
- `covert_epochtime` without an epoch (`convtz_py3.py:63-68`) and `is_number` with its `"Zero"` sentinel (`convtz_py3.py:86-97`). They read the wall clock and parse floats.
- Float epochs in `datetime.fromtimestamp`: the model renders whole seconds only.
- Printing and the `argparse` command line (`convtz_py3.py:157-232`). The printed notice and the selected zone are returned as values instead.
- Unicode `\d` and `\w`: the model's classes are ASCII digits, and ASCII letters, digits and `_`. A non-ASCII digit or letter that Python would accept makes the model's regex fail. `\s` is the full set of characters for which `str.isspace()` holds.
- General regular expressions: only `class{min,max}` sequences without backtracking are modelled. `FormatsDeterminate` shows that all seven regexes are determinate, and `FormatMatchLongest` then shows that the model captures the longest prefix in each regex's language, as a backtracking matcher does.
- Locale and case-folding details of `strptime`: `%b` is the English `Jan` to `Dec`, matched with ASCII case folding.
- Strptime.NumberField: `%d`'s alternative with a leading blank (` 1`) is not modelled. The detection regexes hand `strptime` two-digit days only, so the alternative is never reached.
- Strptime.NumberField: the ordered alternation is read without backtracking. Python's regex could go back from a two-digit choice to a one-digit one when the rest of the template then fails. Every numeric field here is followed by a literal or a blank, which no digit matches, or ends the template. So going back never lets the rest match, and the model reports the same error as Python.
- ConvertTimezone.ParseTimeformat: Python's `OverflowError` from `astimezone`, for an instant outside the years 1 to 9999, is modelled as the error `Overflow`; its message is not modelled.
- Years before 1000 on the UTC line: the model writes `%Y` zero-padded to four digits, as `strptime`'s `%Y` expects. The C library's `strftime` on some platforms writes such years without padding.
