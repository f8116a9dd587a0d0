# TravelBot report core, modelled in Dafny

TravelBot answers "tell me about travelling to X" with a text report built from
four tables: upcoming holidays, visa requirements, population and covid
figures. This project models the parts of `main.py` with real logic:

- the **holiday proximity scan** of `get_holiday_report`: walk the country's
  holiday rows in table order, skip rows already past, stop at the first row
  more than four weeks out, group the rest by name into an insertion-ordered
  map of `[type, days until, duration]`, and render numbered lines;
- the **passport classifier** of `get_passport_report`: a canned sentence for
  six categories, the empty text for the home-country sentinel (an integer
  below -1), a "You get N wisa free days." line for other integers, and an
  error for anything else;
- the **report composition** of `lambda_handler`: header, the four sections
  each followed by a line break, footer.

Modules (one file each): `Results` (Option/Result), `Numerals` (integer
rendering and Python's `int()`), `Text` (line and suffix helpers), `Holidays`
(the scan and its reference grouping), `HolidayText` (the holiday section's
text), `Passport`, `TravelReport`.

Modelling choices:

- Each holiday row carries `offset`, its date moved into the current year minus
  today, in days. Today's date and date parsing are not modelled.
- The Python dict `nearby` is a `seq<Nearby>` with distinct names, in
  insertion order.
- The scan is characterised against an independent reference: `Kept(rows)`
  is the in-window rows before the first row past the window. `Describes(acc,
  p)` says `acc` holds one entry per distinct name of `p`, with the first such
  row's type and offset, a duration equal to the number of rows with that name,
  and entries in order of first appearance.
- Python's `int(text)` is modelled as stripping ASCII whitespace, reading an
  optional sign, then digits with single underscores between digits. The
  digit part may hold at most 4300 digits, not counting underscores. That is
  the default integer string conversion limit of Python 3.11 and later, and of
  the 3.7 to 3.10 security releases that introduced it. A longer digit part
  raises `ValueError` like a malformed one.
- Case folding, capitalization and the population and covid sections are
  function parameters (`Collaborators`). They are applied to the lower-cased
  country, as in the source.
- The model follows the code as written:
  - A requirement that is neither a category nor an integer raises
    `ValueError`. Nothing catches it, so the whole request fails. The model
    returns `Failure` from `ComposeReport` in that case. It does not turn the
    error into section text.
  - Grouping is by name, not by adjacency. A name that reappears after another
    holiday still extends its first entry (`Holidays.GroupingIsByName`).
  - The "Failed to get holiday data" sentence capitalizes the country. The
    passport failure sentence does not.
- The early exit is only sound for date-sorted rows. The model keeps it as
  written. `SortedKeepsWholeWindow` proves that nothing is lost when rows
  ascend. `UnsortedRowsCanBeMissed` shows a holiday that is lost when they do
  not.

## Model

| member | source | states |
|---|---|---|
| Holidays.RowsFor | main.py:11 | the holiday rows for a country are exactly the table rows with that country; empty exactly when no row matches |
| Holidays.RowsForAppend | main.py:11 | the selection keeps table order and multiplicity: selecting from `a + b` is selecting from `a`, then from `b` |
| Holidays.RowsForSingle | main.py:11 | a single row is kept exactly when its country matches |
| Holidays.Cut | main.py:25-26 | the scan examines rows up to, not including, the first row more than 28 days out, and every row before it is within 28 days |
| Holidays.IndexOf | main.py:31 | `holiday in nearby`: a non-negative position exactly when the name is already a key, and that entry carries the name |
| Holidays.RecordDescribes | main.py:31-34 | `Record`, one loop step: adding one row keeps the map an exact grouping: a known name gains a day of duration, a new name is appended with the row's type and offset |
| Holidays.ScanDescribes | main.py:19-34 | `ScanFrom`, the loop with its skip and break turns any grouping of earlier rows into the grouping of those rows plus the rows the loop keeps |
| Holidays.ScanDescribesKept | main.py:15-34 | starting from an empty dict, the scan yields exactly the grouping of the kept rows |
| Holidays.NearbyHolidays | main.py:15-34 | the `nearby` dict: one entry per distinct kept name, first occurrence's type and days-until, duration = number of kept rows with that name, first-seen order, every days-until in 0..28, empty exactly when no row is kept |
| Holidays.DescribesWithinWindow | main.py:21-26 | every grouped holiday is between 0 and 28 days away, since it takes its days-until from a kept row |
| Holidays.DescribesEmpty | main.py:37 | the grouping is empty exactly when no row was kept |
| Holidays.DescribesCountsDistinctNames | main.py:31-34 | the dict has exactly as many entries as there are distinct names among the kept rows |
| Holidays.ScanStopsAtPastWindow | main.py:25-26 | after the first row beyond 28 days nothing contributes, even rows inside the window |
| Holidays.NearbyStopsAtPastWindow | main.py:25-26 | the grouping of `rows + [r] + tail` with `r` beyond the window equals the grouping of `rows` |
| Holidays.ScanSkipsPastDate | main.py:21-22 | a row with a past date changes nothing and does not stop the scan, wherever it stands |
| Holidays.NearbySkipsPastDate | main.py:21-22 | removing a past-dated row anywhere leaves the grouping unchanged |
| Holidays.SortedKeepsWholeWindow | main.py:25-26 | for rows ascending by date, the kept rows are all in-window rows, so the early exit loses nothing |
| Holidays.UnsortedRowsCanBeMissed | main.py:25-26 | for unsorted rows a holiday 5 days out behind one 30 days out is not reported |
| Holidays.ThreeDayHoliday | main.py:31-34 | rows at offsets 5, 6, 7 with one name give one entry with days-until 5 and duration 3 |
| Holidays.GroupingIsByName | main.py:31-34 | a name repeated after another holiday extends its first entry; entries keep first-seen order |
| Text.NumberedAt | main.py:39-52 | the numbered lines are one per entry, numbered consecutively from the start value in entry order |
| HolidayText.HolidaySection | main.py:10-56 | the capitalized failure sentence exactly when the table has no row for the country; the "None within the next 4 weeks" sentence exactly when there are rows but none is kept |
| HolidayText.SectionListsGrouping | main.py:36-52 | with kept rows, the section is the header then line `i + 1` for the `i`-th grouped holiday, as many lines as distinct kept names |
| HolidayText.StartsTodayExactlyAtZero | main.py:42-45 | `StartPhrase`: a line says "starts today!" if and only if the holiday is 0 days away |
| HolidayText.DurationShownExactlyWhenLonger | main.py:47-49 | `DurationPhrase`: a line ends with ". It will last for N days!" if and only if the duration is more than one day |
| HolidayText.LineHasOneBreak | main.py:43-51 | `Line`: each holiday line is exactly one line of text when name and type carry no line break |
| HolidayText.RenderedLineCount | main.py:36-54 | `RenderNearby`: when no grouped holiday's name or type holds a line break, the rendered section holds one line for the header or "None" sentence plus one per grouped holiday |
| HolidayText.NoneExactlyWhenEmpty | main.py:37-54 | `RenderNearby`: the "None" sentence is produced if and only if nothing was grouped |
| HolidayText.CanadaDayLine | main.py:38-45 | `Line` and `RenderNearby` on an example: one public holiday 10 days out renders as "1. [public] Canada Day starts in 10 days" under the 4-week header |
| Numerals.NatToString | main.py:45 | the f-string rendering of a count is a non-empty run of digits, starting with '0' only for zero |
| Numerals.NatToStringRoundTrip | main.py:45 | reading back the digits of a rendered count gives the count |
| Numerals.IntToString | main.py:45 | the f-string rendering of a days-until value ends in a digit and starts with '-' exactly when the value is negative |
| Numerals.AllDigitsCount | main.py:77 | a run of digits counts all its characters toward the 4300-digit limit |
| Numerals.IntRoundTrip | main.py:77 | `ParseInt`, modelling `int()`, applied to the rendering `IntToString` of any integer of at most 4300 digits returns that integer |
| Numerals.TooManyDigitsRejected | main.py:77 | a run of more than 4300 digits is refused by `int()`, whatever its value |
| Numerals.MinusCount | main.py:77 | a leading '-' does not count toward the digit limit |
| Numerals.MinusRoundTrip | main.py:77 | `ParseSigned` reads '-' before the digits of m, at most 4300 of them, as -m |
| Numerals.ParseIgnoresPadding | main.py:77 | `ParseInt` ignores surrounding whitespace and an explicit '+' around the digits of n, at most 4300 of them |
| Numerals.PlusRoundTrip | main.py:77 | `ParseSigned`, the sign and digits after stripping, reads an explicit '+' before the digits of n, at most 4300 of them, as n |
| Numerals.TrimLeft | main.py:77 | the leading half of `Strip`: the result is a suffix of the text, starts with a non-space, and only whitespace was removed |
| Numerals.TrimRight | main.py:77 | the trailing half of `Strip`: the result is a prefix of the text, ends with a non-space, and only whitespace was removed |
| Numerals.StripUnpadded | main.py:77 | `Strip` leaves a text alone when neither end is whitespace |
| Numerals.TrimLeftPrefix | main.py:77 | `Strip`'s left half removes exactly a whitespace prefix in front of a text that starts with a non-space |
| Numerals.TrimRightSuffix | main.py:77 | `Strip`'s right half removes exactly a whitespace suffix after a text that ends with a non-space |
| Passport.Classify | main.py:74-80 | a category exactly for the six map keys, with the map's sentence; home country exactly for a non-key integer below -1; free days for other integers, at least -1; an error exactly when the text is neither, which includes integers of more than 4300 digits |
| Passport.FirstMatch | main.py:59-73 | no position exactly when no row names the destination, else the first row that does |
| Passport.PassportSection | main.py:58-82 | no row: `PassportFailure`, the uncapitalized failure sentence; key: header plus canned sentence; integer below -1: the empty text; other integer: header plus "You get {req} wisa free days." echoing req; otherwise, including a number of more than 4300 digits, the malformed-requirement error |
| Passport.IntegerIsNoCategory | main.py:64-74 | no rendered integer is a category key, so numbers always reach the `int(req)` branch |
| Passport.NumericRequirement | main.py:74-80 | for a requirement written as integer n of at most 4300 digits: empty section exactly when n < -1, otherwise the header and `FreeDaysSentence`, "You get n wisa free days." |
| Passport.EmptyOnlyForHomeCountry | main.py:77-78 | the section is the empty text if and only if the first row's requirement is the home-country sentinel |
| Passport.LongNumberIsMalformed | main.py:77 | a requirement of more than 4300 digits is the malformed-requirement error, as `int(req)` raises |
| Passport.WordIsNoInteger | main.py:77 | a requirement whose first character is not whitespace, a sign or a digit is never read as an integer |
| Passport.ExampleHomeCountry | main.py:77-78 | requirement "-5" gives the empty section |
| Passport.ExampleZeroDays | main.py:79-80 | requirement "0" gives "You get 0 wisa free days." |
| Passport.ExampleCategory | main.py:68-75 | requirement "visa required" gives the canned sentence |
| Passport.ExampleMalformed | main.py:77 | requirement "abc" is the malformed-requirement error |
| TravelReport.Assemble | main.py:129-134 | the report reads back as the header, the holiday section, a line break, the passport section, a line break, the population section, a line break, the covid section, a line break, then the footer "\n*nan represents unavailable data" |
| TravelReport.AfterHoliday | main.py:130-134 | the text after the holiday section reads back as a line break, the passport section, a line break, the population section, a line break, the covid section, a line break, the footer |
| TravelReport.LayoutIsUnique | main.py:129-134 | the read-back layout determines the report: two texts laid out from the same sections are equal |
| TravelReport.Compose | main.py:128-134 | an error from the passport section, which the source does not catch, is the outcome with that error; otherwise the sections are laid out in order |
| TravelReport.ComposeReport | main.py:128-134 | the report fails exactly when the passport section fails, with its error; otherwise it reads back as `ReportHeader` naming the capitalized country, then the holiday, passport, population and covid sections each followed by a line break, then the footer |
| TravelReport.AroundHoliday | main.py:129-134 | the text before the holiday section is the header and the text after it is the passport, population and covid lines and the footer |
| TravelReport.OnlyHolidaySectionDiffers | main.py:130-134 | two reports differing only in the holiday section succeed together and agree before and after it |
| TravelReport.HolidayTableOnlyChangesHolidaySection | main.py:128-134 | for holiday rows whose dates are already offsets, changing the holiday table changes neither whether the report succeeds nor any text outside the holiday section (a date the source cannot parse is under "## Left out") |
| TravelReport.AfterPassport | main.py:131-134 | the text after the holiday section is a line break, the passport section, and a remainder that does not depend on the passport section |
| TravelReport.AroundPassport | main.py:129-134 | the text before the passport section is the header, the holiday section and a line break, and the text after it is `AfterPassport` |
| TravelReport.ComposeFramed | main.py:129-134 | a composed report holds its passport section between the header, holiday section and line break and the population, covid and footer lines |
| TravelReport.PassportSectionFramed | main.py:128-134 | whatever the passport table holds, the report text around the passport section is built from the other tables and collaborators only |
| TravelReport.PassportTableOnlyChangesPassportSection | main.py:128-134 | changing the passport table changes whether the report succeeds exactly as it changes the passport section, and both reports hold their passport section between the same text before and after |

## Left out

- Loading the tables from S3 with boto3 and pandas, and logging (main.py:1-8, 118-126, 136): I/O. The tables come in as sequences of typed rows.
- The Lex response envelope (main.py:138-154): a fixed data literal with no logic.
- `get_population_report` and `get_covid_report` (main.py:84-115): they rest on float division, `:.2f` and `:,.0f` formatting and pandas NaN rendering. Their texts come in as functions of the country name.
- `datetime.now()`, `strptime` and `.replace(year=...)` (main.py:17, 20): each row carries its precomputed day offset, so no date is parsed. In the source, `strptime` raises on a date cell that is not `%Y-%m-%d` (`ValueError`) or is empty (NaN, `TypeError`), and `.replace` raises `ValueError` on February 29 in a non-leap year. Either error in a row the scan reaches before its early exit escapes `lambda_handler` and fails the whole request; neither is reproduced. A holiday whose date in the current year is already past is skipped even when its next occurrence is within four weeks (early January seen from late December). The model keeps this behaviour because it follows from the offsets.
- TravelReport.HolidayTableOnlyChangesHolidaySection: success does not depend on the holiday table only because rows carry precomputed offsets. In the source, a row reached before the scan's early exit whose date `strptime` or `.replace(year=...)` rejects (main.py:20) raises uncaught and fails the whole request, so the holiday table can decide whether the report succeeds; the lemma does not promise that.
- `lower()` and `capitalize()` (main.py:128-129, 13): uninterpreted functions passed in.
- A missing `Country` slot in the request (main.py:128) raises before any section runs; the model starts from the country string.
- Numerals.ParseInt: fixes the digit limit at the default 4300. `sys.set_int_max_str_digits` and `PYTHONINTMAXSTRDIGITS` can change or disable it, and interpreters released before the limit have none; neither case is modelled.
- Numerals.ParseInt: does not model non-ASCII whitespace or non-ASCII decimal digits, which Python's `int()` also accepts.
- Passport.PassportSection: a requirement cell that pandas reads as NaN (an empty cell) is not a string in the source; the model only sees strings, and an empty string is the malformed-requirement error, as `int("")` would raise.
