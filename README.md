# Bergfex resort-page parser in Dafny

This project models `custom_components/bergfex/parser.py` of the Bergfex
integration. That file turns a ski-resort page of bergfex.fr / .com / .at
into a dictionary of sensor values. Four parts of it are modelled:

- the locale table `LABELS`, which holds the French, English and German
  label of each field;
- `get_text_for_labels`, which returns the text of the `dd` after the first
  `dt` carrying one of the labels;
- `parse_bergfex_datetime`, which reads three kinds of last-update stamp:
  "today H:MM", "yesterday H:MM" and `D.M.[YYYY][,|.] H:MM`. When the year
  is missing it is inferred, rolling back one year if the date would be more
  than 180 days ahead;
- `parse_resort_page`, which reads, in order:
  1. the name;
  2. the snow depths, in a loop over `dt.big`;
  3. three text fields;
  4. the lift counts;
  5. the piste kilometres or counts;
  6. the piste condition;
  7. the last update.

  It then sets the lift status and drops the placeholder values `""` and
  `"-"`.

Modules:

- `Builtins`: the Python string operations the parser relies on: `str.strip`,
  `str.lower`, `in`, `startswith`, `replace`, `split()[0]`, `int()`,
  `str(n)`, and `re.findall` over a character class.
- `Labels`: the label table.
- `Soup`: a parsed page as a forest of element and text nodes, with `.text`,
  `.string`, `find`, `find_all`, `find_next_sibling` and
  `get_text_for_labels` (`TextForLabels`).
- `Calendar`: Python `datetime` validity, ordinals and day arithmetic,
  including the `OverflowError` at year 1 and year 9999.
- `DateParser`: the two regular expressions. Each is written twice: as a
  grammar over string positions, and as a left-to-right scanner proved to find
  exactly the grammar's leftmost match. On top of these sits
  `ParseBergfexDateTime`.
- `DateProperties`: what the date parser promises.
- `ResortPage`: the page parser. `Outcome` is a stage-by-stage
  specification. The imperative `ParseResortPage` performs the same dictionary
  updates statement by statement, with the snow loop as a `while` loop, and is
  proved equal to `Outcome`.
- `PageProperties` and `StageProperties`: what the returned dictionary
  holds, field by field, and how each stage reads the text shapes the site
  writes.

The clock is a parameter: `now` stands for `datetime.now(tz)`. An exception
that escapes the Python code is an explicit error value: `DateOutcome.Raised`
or `PageOutcome.Failed`.

### Behaviour of the code worth knowing

- **Exceptions escape.** `parse_resort_page` can raise in three ways:
  - `ValueError` from `float()` on a kilometre figure it cannot read
    (parser.py:184-188).
  - `ValueError` from `replace(hour=…)` in the relative forms when the hour
    is above 23 or the minute above 59 (parser.py:91-96 and 102-107).
  - `OverflowError` from `now ± timedelta` at the ends of the representable
    range (parser.py:101 and 121). These are raised outside the `try`, or are
    not caught by `except ValueError`.
- **Unreadable date.** An unreadable last-update text leaves `last_update`
  out of the result (parser.py:201-203); the raw text is not kept.
- **Page shape.** The name is the stripped text of the first `h1`
  (parser.py:141-142).
- **Failed lift total.** When the total cannot be read, the open count
  already stored is kept, because the `except` comes after the first
  assignment (parser.py:175-179).

### Where the test and the code disagree

The model follows the code in each case.

- **`new_snow`.** The test expects a `new_snow` field
  (custom_components/bergfex/tests/test_parser.py:57). The code never writes one.
- **Missing functions.** The test imports `parse_overview_data` and
  `parse_snow_forecast_images` (test_parser.py:2-6), which `parser.py` does
  not define.
- **Time zone.** The test expects Europe/Vienna (test_parser.py:65), while the code uses
  Europe/Paris. Under today's rules both zones have the same offsets, and
  the zone is not part of this model.

## Model

| member | source | states |
|---|---|---|
| Labels.Variants | custom_components/bergfex/parser.py:19-53 | every category has exactly three label variants, none of them empty |
| Soup.StringIsText | custom_components/bergfex/parser.py:63 | where `.string` exists it is the whole `.text` of the node |
| Soup.WhereFacts | custom_components/bergfex/parser.py:145 | `find_all` keeps only matching elements, drops none of them, and returns no more than there are |
| Soup.WhereAppend | custom_components/bergfex/parser.py:145 | filtering a concatenation filters the parts in turn, so `find_all` keeps the matches in document order, each as often as it occurs |
| Soup.WhereOne | custom_components/bergfex/parser.py:145 | a single element is kept exactly when it matches |
| Soup.FindFacts | custom_components/bergfex/parser.py:141 | `find` returns the first matching element in document order; None only when no element matches |
| Soup.NextSiblingFacts | custom_components/bergfex/parser.py:64 | `find_next_sibling` returns the first later sibling that matches; None only when none does |
| Soup.LabelValueFacts | custom_components/bergfex/parser.py:63-65 | only the first `dt` whose string holds the label is consulted; with no such `dt` the label yields None |
| Soup.TextForLabelsFacts | custom_components/bergfex/parser.py:60-66 | the lookup yields a value exactly when some label does, and then it is the value of the first label that yields one |
| Soup.AbsentLabelsYieldNone | custom_components/bergfex/parser.py:60-66 | a page with no `dt` text containing any of the labels yields None |
| Builtins.StripFacts | custom_components/bergfex/parser.py:65 | `strip()` is the slice between the leading and trailing whitespace, and starts and ends with non-whitespace |
| Builtins.StripIdempotent | custom_components/bergfex/parser.py:78 | stripping twice is stripping once |
| Builtins.StripSurrounded | custom_components/bergfex/parser.py:176 | whitespace around a text with non-blank ends is exactly what `strip()` removes |
| Builtins.StripFirstWord | custom_components/bergfex/parser.py:177 | `s.strip().split()[0]` is `s.split()[0]`: the outer blanks do not change the first word |
| Builtins.FirstWordOf | custom_components/bergfex/parser.py:177 | a word after blanks and before a blank or the end is the first word, whatever follows |
| Builtins.FindLeftmost | custom_components/bergfex/parser.py:173 | substring search reports the leftmost occurrence, and None only when there is none |
| Builtins.ContainsIff | custom_components/bergfex/parser.py:173 | `sub in s` holds exactly when `sub` occurs at some position |
| Builtins.FirstWordFacts | custom_components/bergfex/parser.py:177 | `split()[0]` is the maximal non-blank slice after the leading blanks; it fails exactly when the text is all whitespace |
| Builtins.FirstWordWhole | custom_components/bergfex/parser.py:177 | a non-empty text without whitespace is its own first word |
| Builtins.IntBodyFacts | custom_components/bergfex/parser.py:176 | a digit string is an integer literal worth its decimal value; every literal starts and ends with a digit |
| Builtins.PyIntFacts | custom_components/bergfex/parser.py:176-177 | `int()` reads a digit string at its decimal value and rejects a blank text |
| Builtins.DecimalRoundTrip | custom_components/bergfex/parser.py:176-177 | `int(str(n)) == n`, and `str(n)` is a non-empty digit string |
| Builtins.ReplaceAbsent | custom_components/bergfex/parser.py:150 | `replace` leaves a text without the pattern unchanged |
| Builtins.PiecesRejoin | custom_components/bergfex/parser.py:150 | `pat.join(s.split(pat)) == s`, and `s.replace(pat, rep)` is `rep.join(s.split(pat))` |
| Builtins.PiecesFree | custom_components/bergfex/parser.py:168 | no piece of `s.split(pat)` holds the pattern |
| Builtins.ReplaceMayRejoin | custom_components/bergfex/parser.py:150 | removing "cm" can bring a new "cm" together: `"ccmm".replace("cm", "")` is `"cm"` |
| Builtins.ReplaceCharAll | custom_components/bergfex/parser.py:186 | replacing `,` by `.` rewrites exactly the positions holding a comma and keeps the length |
| Builtins.RunsFacts | custom_components/bergfex/parser.py:184 | every run `re.findall` returns is non-empty and made of class characters |
| Builtins.RunsCoverMatches | custom_components/bergfex/parser.py:184 | the runs together are exactly the class characters of the text, in order |
| Builtins.RunsEmpty | custom_components/bergfex/parser.py:190-191 | `re.findall` finds no run exactly when no character belongs to the class |
| Builtins.RunsOfTwo | custom_components/bergfex/parser.py:190 | two runs separated by a non-class gap, with a tail holding no class character, are the only two runs |
| Calendar.OrdinalMonotone | custom_components/bergfex/parser.py:121 | ordinals follow the calendar order of dates |
| Calendar.OrdinalRange | custom_components/bergfex/parser.py:121 | every representable date has an ordinal from 1 to that of 31 December 9999 |
| Calendar.FinalOrdinal | custom_components/bergfex/parser.py:121 | the last ordinal belongs to 31 December 9999 and no other date |
| Calendar.FirstOrdinal | custom_components/bergfex/parser.py:101 | the first ordinal belongs to 1 January of year 1 and no other date |
| Calendar.NextDay | custom_components/bergfex/parser.py:121 | the next day is valid, keeps the time and has the next ordinal; there is none exactly on the last representable day |
| Calendar.PrevDay | custom_components/bergfex/parser.py:101 | `now - timedelta(days=1)` is valid, keeps the time and has the previous ordinal; it overflows exactly on the first representable day |
| Calendar.PlusDays | custom_components/bergfex/parser.py:121 | `now + timedelta(days=n)` keeps the time and adds `n` to the ordinal; it overflows exactly when that passes 31 December 9999 |
| DateParser.TimeAtSound | custom_components/bergfex/parser.py:90 | the clock scanner reports only matches of `(\d{1,2}):(\d{2})` |
| DateParser.TimeAtComplete | custom_components/bergfex/parser.py:90 | the clock scanner finds every match at a position, so each position has at most one |
| DateParser.SearchTime | custom_components/bergfex/parser.py:90 | `re.search` of the clock pattern returns the leftmost match, and None only when there is none |
| DateParser.MatchDateAtSound | custom_components/bergfex/parser.py:110-113 | the date scanner reports only matches of the absolute pattern |
| DateParser.MatchDateAtComplete | custom_components/bergfex/parser.py:110-113 | the date scanner returns every match at its start, so backtracking cannot change the groups |
| DateParser.SearchDate | custom_components/bergfex/parser.py:110-114 | `re.search` of the absolute pattern returns the leftmost match, the only one at its start, and None only when there is none |
| DateParser.DateHasClock | custom_components/bergfex/parser.py:111 | every match of the absolute pattern ends in a match of the clock pattern |
| DateParser.AtClock | custom_components/bergfex/parser.py:91-96 | `replace(hour, minute, 0, 0)` yields a valid datetime with seconds cleared |
| DateParser.FromGroups | custom_components/bergfex/parser.py:115-125 | a date built from the groups is valid and has its seconds cleared |
| DateParser.ParseBergfexDateTime | custom_components/bergfex/parser.py:73-128 | every parsed stamp is a valid datetime with seconds and microseconds 0 |
| DateProperties.StampNormal | custom_components/bergfex/parser.py:78-99 | a `DD.MM.YYYY, HH:MM` stamp is already stripped and lowered, and is no relative form |
| DateProperties.StampRoundTrip | custom_components/bergfex/parser.py:110-123 | a stamp rendered as the site writes it parses back to the very instant rendered, whatever `now` is |
| DateProperties.StampExample | custom_components/bergfex/tests/test_parser.py:66-72 | "05.11.2025, 14:40" parses to 5 November 2025 14:40 |
| DateProperties.TodayIsNotYesterday | custom_components/bergfex/parser.py:89-107 | no text starts with both a word for today and a word for yesterday |
| DateProperties.TodayForm | custom_components/bergfex/parser.py:89-96 | "today … H:MM" is today's date at that clock; it raises ValueError exactly when the clock is no time of day, and is never None |
| DateProperties.YesterdayForm | custom_components/bergfex/parser.py:99-107 | "yesterday … H:MM" is the previous day at that clock; OverflowError exactly on the first representable day, otherwise ValueError exactly when the clock is no time of day |
| DateProperties.NoClockUnparsed | custom_components/bergfex/parser.py:75-128 | an empty text, or one without a clock, yields None |
| DateProperties.ExplicitYear | custom_components/bergfex/parser.py:115-123 | with an explicit year, nothing is raised, and the date is returned exactly when it exists, with the groups as written |
| DateProperties.InferredYear | custom_components/bergfex/parser.py:116-123 | without a year, the result keeps month, day, hour and minute, in the current year or the year before; it raises, always OverflowError, exactly when the date exists and `now + 180 days` overflows |
| DateProperties.InferredRollsBackIff | custom_components/bergfex/parser.py:116-123 | without a year, the year before is taken exactly when this year's date lies beyond `now + 180 days`; within the horizon this year's date is returned as built |
| DateProperties.PastFebruary | custom_components/bergfex/parser.py:121-122 | a date of this year later than 180 days from now lies after February |
| DateProperties.InferredWithinHorizon | custom_components/bergfex/parser.py:121-122 | an inferred year never puts the stamp after `now + 180 days` |
| DateProperties.InferredAlwaysParses | custom_components/bergfex/parser.py:119-125 | once now is past year 1 and the horizon exists, a day and month valid in the current year always parse: a roll-back only happens after February, so it never meets a missing 29 February |
| DateProperties.RaisesOnlyWhen | custom_components/bergfex/parser.py:73-128 | only three exceptions escape: ValueError from a relative form whose clock is no time of day, OverflowError from "yesterday" on day 1, and OverflowError from the 180-day horizon |
| ResortPage.NextSepFacts | custom_components/bergfex/parser.py:174 | the separator search finds the leftmost `von` or `of`, and None only when there is none |
| ResortPage.SplitHasTwo | custom_components/bergfex/parser.py:173-177 | when the text holds `von` or `of`, `re.split` yields at least two pieces, so `parts[1]` exists |
| ResortPage.ReadSnowDepth | custom_components/bergfex/parser.py:146-159 | one pass of the snow loop performs exactly the updates of `SnowStep` |
| ResortPage.SnowDepths | custom_components/bergfex/parser.py:145-159 | the loop over the `dt.big` elements leaves the dictionary `SnowLoop` describes |
| ResortPage.ReadSnowReport | custom_components/bergfex/parser.py:161-169 | the three text fields are stored as `TextStage` describes |
| ResortPage.ReadLiftCounts | custom_components/bergfex/parser.py:171-179 | the lift counts are stored as `LiftCounts` describes, including the partial store before a failure |
| ResortPage.ReadSlopeFigures | custom_components/bergfex/parser.py:181-194 | the piste figures are stored, or a ValueError escapes, as `SlopeFigures` describes |
| ResortPage.ReadLastUpdate | custom_components/bergfex/parser.py:200-203 | the last update is stored, or the date parser's exception escapes, as `UpdateStage` describes |
| ResortPage.ParseResortPage | custom_components/bergfex/parser.py:135-210 | the statement-by-statement parser returns exactly `Outcome`, the stage-by-stage specification |
| PageProperties.PruneKeeps | custom_components/bergfex/parser.py:210 | the final filter keeps exactly the fields whose value is not `""` or `"-"`, unchanged |
| PageProperties.FinishFacts | custom_components/bergfex/parser.py:205-210 | the status is always present, is "Open" or "Closed", and says "Open" exactly when the returned dictionary holds a positive open-lift count; other fields keep their values unless they were placeholders |
| PageProperties.NameStageWrites | custom_components/bergfex/parser.py:140-142 | the name stage changes no field but the name |
| PageProperties.SnowStepWrites | custom_components/bergfex/parser.py:146-159 | one pass of the snow loop changes no field but the two depths |
| PageProperties.SnowLoopWrites | custom_components/bergfex/parser.py:145-159 | the snow loop changes no field but the two depths |
| PageProperties.TextStageWrites | custom_components/bergfex/parser.py:161-169 | the text stage changes no field but the three text fields |
| PageProperties.LiftCountsWrites | custom_components/bergfex/parser.py:171-179 | the lift stage changes no field but the two lift counts |
| PageProperties.SlopeFiguresWrites | custom_components/bergfex/parser.py:181-194 | the piste stage, when it returns, changes no field but the four piste figures |
| PageProperties.ConditionStageWrites | custom_components/bergfex/parser.py:196-198 | the piste-condition stage changes no field but its own |
| PageProperties.UpdateStageWrites | custom_components/bergfex/parser.py:200-203 | the last-update stage, when it returns, changes no field but the last update |
| PageProperties.PageFields | custom_components/bergfex/parser.py:138-210 | on a returned page, every field is what the one stage writing it stored, unless that was a placeholder; no later stage overwrites an earlier one |
| PageProperties.PageStatus | custom_components/bergfex/parser.py:205-210 | a returned page always has a status, "Open" exactly when it reports a positive number of open lifts, and holds no placeholder |
| PageProperties.SnowStepFacts | custom_components/bergfex/parser.py:146-159 | a mountain label sets the mountain depth and a valley label the valley depth; a snow-height label sets the valley depth only while none is stored |
| PageProperties.MountainDepth | custom_components/bergfex/parser.py:145-150 | after the loop the mountain depth is the one announced by the last mountain `dt.big`; without one it is unchanged |
| PageProperties.ValleyDepth | custom_components/bergfex/parser.py:145-159 | after the loop the valley depth is the one announced by the last valley `dt.big`; failing that, an earlier value or else the first snow-height `dt.big`; otherwise there is none |
| StageProperties.NoSepSplit | custom_components/bergfex/parser.py:174 | a text with no `v` and no `o` is not split |
| StageProperties.SplitAround | custom_components/bergfex/parser.py:174 | one separator between two separator-free pieces splits the text into exactly those pieces |
| StageProperties.SplitFirst | custom_components/bergfex/parser.py:174 | a first piece in which no separator can start is split off whole, and the rest is split on its own |
| StageProperties.SplitKeepsPrefix | custom_components/bergfex/parser.py:174 | a prefix in which no separator can start stays whole in the first piece, which goes on with a prefix of the rest |
| StageProperties.SplitRejoins | custom_components/bergfex/parser.py:174 | there is one more piece than separators, and the pieces with the removed separators put back between them give the text again |
| StageProperties.SplitParts | custom_components/bergfex/parser.py:174 | every removed separator is `von` or `of`, and no piece holds either |
| StageProperties.LiftCountsFields | custom_components/bergfex/parser.py:172-179 | for every lift text: without `von` or `of` nothing changes; otherwise there are at least two pieces, the open count is stored exactly when the first piece reads as an integer, the total exactly when the first word of the second piece then reads too, a count not read keeps any earlier value, and no other field changes |
| StageProperties.LiftsNeedSeparator | custom_components/bergfex/parser.py:173 | a lift text without `von` or `of` stores nothing |
| StageProperties.LiftsWithTrailer | custom_components/bergfex/parser.py:172-177 | "a von b" followed by any words, such as "offen", stores `a` open and `b` total lifts, even where a later word holds "of" |
| StageProperties.LiftsExample | custom_components/bergfex/parser.py:172-177 | "5 von 12 offen" stores 5 open and 12 total lifts |
| StageProperties.LiftsFromText | custom_components/bergfex/parser.py:172-177 | "a von b" (or "a of b") stores `a` open and `b` total lifts, and nothing else |
| StageProperties.LiftsOpenOnly | custom_components/bergfex/parser.py:175-179 | "a von" stores the open count and no total: the IndexError is caught |
| StageProperties.LiftsNeedOpen | custom_components/bergfex/parser.py:175-179 | "von b" stores nothing: `int("")` fails before any store |
| StageProperties.LiftsOnPage | custom_components/bergfex/parser.py:172-208 | on a page whose lift text reads "a von b", a returned page carries both counts and says "Open" exactly when `a` is positive |
| StageProperties.FloatOfDigits | custom_components/bergfex/parser.py:186 | `float()` of a digit string is that integer |
| StageProperties.FloatOfPoint | custom_components/bergfex/parser.py:186-188 | `float(w + "." + f)` is the decimal with those digits and `|f|` places, and raises exactly when both sides are empty |
| StageProperties.FloatRejectsTwoPoints | custom_components/bergfex/parser.py:186-188 | `float()` raises on a text with two points |
| StageProperties.KmOfComma | custom_components/bergfex/parser.py:186 | a decimal comma reads as the point |
| StageProperties.KmOfDigits | custom_components/bergfex/parser.py:186 | a digit string is not rewritten by the comma replacement |
| StageProperties.SlopeCountsAnyRuns | custom_components/bergfex/parser.py:189-194 | without "km", whatever the number of digit runs: the first sets the open count and the second the total, with fewer runs only those present are set, a text without digits sets neither, no other field changes, and nothing fails |
| StageProperties.SlopeCountsFromText | custom_components/bergfex/parser.py:189-194 | a text without "km" that is the figure `a`, a non-empty gap without digits, the figure `b` and a tail without digits stores `a` open and `b` total pistes |
| StageProperties.SlopeKmFromText | custom_components/bergfex/parser.py:183-188 | a text with "km" that is the figure `a`, a non-empty gap without digits, commas or points, the figure `b` and a tail without digits, commas or points stores `a` open and `b` total kilometres |
| StageProperties.SlopeKmComma | custom_components/bergfex/parser.py:183-188 | "12,5 km" stores 12.5 open kilometres and no total |
| StageProperties.SlopeKmStrayPoint | custom_components/bergfex/parser.py:184-186 | a lone point before the figures, as in "ca. 12 km", is a run of its own and makes the stage raise ValueError |
| StageProperties.SlopeKmThousands | custom_components/bergfex/parser.py:184-188 | "1.234,5 km" becomes "1.234.5" and makes the stage raise ValueError |
| StageProperties.SlopeFiguresFail | custom_components/bergfex/parser.py:182-194 | the piste stage fails exactly when one of the first two kilometre runs is not a number `float()` reads, and then with ValueError |
| StageProperties.UpdateStageFail | custom_components/bergfex/parser.py:200-203 | the last-update stage fails exactly when the date parser raises on the first `div.h2-sub`, with that exception |
| StageProperties.FailsOnlyWhen | custom_components/bergfex/parser.py:135-210 | `parse_resort_page` raises exactly when the piste figures or the last-update stamp raise, and the piste error comes first |
| StageProperties.NameOnPage | custom_components/bergfex/parser.py:140-142 | the name is the stripped text of the first `h1` unless that is a placeholder; without an `h1` the page has no name |
| StageProperties.UpdateFromStamp | custom_components/bergfex/parser.py:200-203 | a divider holding a stamp in the site's form puts that instant on the page, and then only the piste figures can make the page fail |
| StageProperties.DropUnit | custom_components/bergfex/parser.py:150 | removing "cm" from a text that ends in it, and holds no other `c`, leaves the rest |
| StageProperties.SnowDepthText | custom_components/bergfex/parser.py:150 | a depth written "n cm" is stored as the number's digits alone |
| StageProperties.SnowOnPage | custom_components/bergfex/parser.py:145-159 | the mountain depth on the page comes from the last mountain `dt.big`, the valley depth from the last valley one or else the first snow-height one; each is absent without such a `dt.big` or when its text is a placeholder |
| StageProperties.TextsOnPage | custom_components/bergfex/parser.py:161-169 | each text field is on the page exactly when its label lookup found a non-placeholder text, with that text; the avalanche warning loses "Lawinenwarndienst" |
| StageProperties.NothingBeforeSlopes | custom_components/bergfex/parser.py:138-179 | before the piste stage, no field of it or of a later stage is stored |
| StageProperties.SlopeCountsOnPage | custom_components/bergfex/parser.py:189-194 | a piste text "a … b" without "km" puts both counts on the page and no kilometre figure |
| StageProperties.ConditionOnPage | custom_components/bergfex/parser.py:196-198 | the piste condition on the page is the label text unless it is a placeholder |
| StageProperties.UpdateOnPage | custom_components/bergfex/parser.py:200-203 | the last update is on the page exactly when the first `div.h2-sub` holds a text the date parser reads, and is then that instant |

## Left out

- HTML parsing: BeautifulSoup with lxml is not modelled. A page is the
  forest of nodes the parser would produce, and `class_` matches one entry of
  an element's class list.
- Other repository files: `sensor.py` and `check_import.py` only call the
  parser and are not part of this model. `parse_overview_data` and
  `parse_snow_forecast_images`, which the test imports, do not exist in
  `parser.py`.
- The clock and the time zone: `datetime.now(ZoneInfo("Europe/Paris"))` is
  the parameter `now`, and the `zoneinfo`/`backports` import is not modelled.
  Both datetimes share one zone object, so Python compares and shifts them on
  their wall-clock fields. The model does the same, and no daylight-saving
  rule enters.
- Logging: the `_LOGGER.debug` calls are not modelled; they have no effect on
  the result.
- Dictionary order: the result is a `map`. The insertion order of the Python
  dictionary is not modelled.
- Floating point: a kilometre figure is the exact decimal `digits / 10^scale`
  that `float()` reads. Binary rounding is not modelled.
- Builtins.PyInt: follows `int()` without the limit of 4300 digits that
  CPython 3.11 and later enforce; older interpreters, which the code also
  supports, have no limit. A count of more than 4300 digits is read here,
  where a newer interpreter raises ValueError.
- ResortPage.SlopeFigures: with the same unlimited `int()`, the piste counts
  never raise. A newer interpreter would raise ValueError there, uncaught, on
  a count of more than 4300 digits (parser.py:192-194). In the lift counts
  the same error is caught: an over-long open count stores nothing, and an
  over-long total leaves the open count stored (parser.py:176-179).
- Non-ASCII digits: `int()`, `float()` and the regex class `\d` accept
  Unicode digits in Python. The model treats only ASCII digits as digits.
- Non-ASCII case: `str.lower()` lowers only ASCII letters in the model. The
  relative-date words it is compared with are all ASCII.
- Shared state: the Python function builds its dictionary locally and returns
  a filtered copy, so the model keeps that dictionary as a local `map` value
  updated statement by statement; there is no object state to model.
