# ECA&D temperature analysis, modelled in Dafny

This project models the analysis functions of `temperature.py`. The script reads daily
maximum and minimum temperature series from the European Climate Assessment & Dataset
(ECA&D) station files. It finds the warmest and the coldest day, and the longest spell of
freezing days. It also prints dates in a friendly form such as "3 May 1967".

Modules, one per part of the program:

- `Results` (results.dfy): `Option` and `Result`. The errors Python raises become `Err` values.
- `Text` (text.dfy): the Python string operations the code relies on, over `seq<char>`:
  - `str.strip()` (Python's `isspace` character set), `rstrip('\n')`, clamped slicing and `startswith`;
  - `int()` on decimal literals: an optional sign, and surrounding whitespace other than the ASCII separators U+001C..U+001F, which `int()` rejects although `strip()` removes them;
  - `str()` of integers.
- `Climate` (climate.dfy): a day's `Reading` and the parallel date and temperature lists
  (`Series`). Temperatures are integers in tenths of a degree, as stored in the file. Python
  divides by ten, but the analysis only compares temperatures with each other and with zero,
  and those comparisons come out the same on tenths.
- `EcaParser` (eca_parser.dfy): the line loop of `read_data`, over the list of lines
  `readlines()` returns:
  - everything up to and including the first line whose trimmed text starts with `STAID` is
    skipped;
  - each later line gives the date column `[14:22]` and the temperature column `[23:28]`;
  - a temperature column `int()` rejects stops the parse.
- `Extremes` (extremes.dfy): `get_highest_temp` and `get_lowest_temp`. Each is a scan seeded
  at day 0 that replaces the running extreme only on a strict improvement, so the earliest
  extreme day wins.
- `Freezing` (freezing.dfy): `get_longest_freezing`, which works like this:
  - a spell is compared with the record only when a non-freezing day ends it;
  - the record changes only on a strict improvement;
  - the reported date is that of the spell's last freezing day;
  - a spell still running on the last day is never counted.
- `Calendar` (calendar.dfy): `get_friendly_date`, in four steps:
  - `int()` reads the three date fields, in order;
  - `datetime` checks the year, then the month, then the day (proleptic Gregorian);
  - the day and the year are printed as plain numbers;
  - the month is printed by its English name.

  To state what these steps give back, the module also writes dates in the `YYYYMMDD` form
  of the data files (zero-padded fields) and reads a friendly date back into its numbers.

Each operation has a pure function, which states what it computes. Each Python loop also has
a method that follows its control flow step by step, and the method is proved equal to the
function. The Python code raises an exception in some cases: `IndexError` when it reads a
list past its end, `ValueError` from `int()` or `datetime`. The model returns an `Err` in
exactly those cases. It adds no preconditions of its own: the date and temperature lists may
have any lengths, and the model fails exactly where the Python code reads a missing element.

The model follows the code in three behaviours a reader might not expect:

- A record line shorter than the 28 columns is not always an error in the code. Its
  temperature column `[23:28]` is then cut short, and the parse stops only when `int()`
  rejects what is left. A line with no character at index 23 has an empty temperature column,
  which `int()` rejects, so every date a successful parse returns is a full eight-character
  column.
- The code does not check that the date and temperature lists have equal lengths. The
  extremum functions fail when either list is empty, and otherwise only when a day that
  improves the extreme has no date. The freezing scan fails only when a date has no
  temperature.
- The code treats the first `STAID` line as the header. Any later `STAID` line is read as
  a record.

## Model

| member | source | states |
|---|---|---|
| Text.Strip | temperature.py:40 | `strip()` cuts whitespace, and only whitespace, off both ends: the result is a piece of the input with whitespace on either side of it and none at its own ends, and it is empty exactly when the input is all whitespace |
| Text.StripUnique | temperature.py:40 | any piece of a string that has only whitespace around it and none at its own ends is that string's `strip()` |
| Text.StripIgnoresNewlines | temperature.py:38-40 | dropping the line feeds before `strip()` does not change its result |
| Text.Slice | temperature.py:47 | `s[lo:hi]` is the plain slice when the bounds fit the string. With `hi` past the end it runs to the end of the string, and it is empty when `lo` is at or past the end or `hi <= lo` |
| Text.StartsWith | temperature.py:40 | `s.startswith(p)` holds exactly when `s` is `p` followed by some text |
| Text.StripNewlines | temperature.py:38 | `rstrip('\n')` keeps a prefix of the line that does not end in a line feed, and everything it drops is a line feed |
| Text.DropLineFeed | temperature.py:38 | `rstrip('\n')` removes the single line feed that ends a line, and leaves the rest of the line unchanged |
| Text.ParseInt | temperature.py:49 | `int()` succeeds exactly on the stripped text made of an optional sign and at least one decimal digit, provided no character U+001C..U+001F occurs anywhere in the argument |
| Text.ParseIntRoundTrip | temperature.py:49 | `int(str(i)) == i` for every integer |
| Text.StripPadded | temperature.py:49 | a right-justified column with space padding strips back to its value |
| Text.ParsePadded | temperature.py:103 | a zero-padded decimal field such as `05` reads back as its number |
| Text.NatToString | temperature.py:104 | `str(n)` is a non-empty string of digits whose value is `n`, and only `"0"` itself starts with a zero |
| EcaParser.IsHeader | temperature.py:38-40 | a line is the header exactly when its text without whitespace ends starts with `STAID`. Dropping the line feed first makes no difference |
| EcaParser.DateField | temperature.py:38-47 | the date column has at most 8 characters. It has all 8 exactly when the line without its line feeds has at least 22 characters, and they are then the characters at indices 14 to 21 of the line |
| EcaParser.TempField | temperature.py:38-49 | the stripped temperature column has at most 5 characters and no whitespace at its ends. It is empty when the line without its line feeds has no character at index 23 |
| EcaParser.ParseRecord | temperature.py:47-49 | a record fails exactly when its temperature column is not an integer literal, and the error names the line and the column text. Otherwise the reading holds the date column, which then has all 8 characters, and the column's integer value |
| EcaParser.FirstHeader | temperature.py:39-42 | the search over the first `n` lines finds a header line with no header line before it, or reports that none of those lines is a header |
| EcaParser.HeaderIndex | temperature.py:39-42 | the data starts after the first `STAID` line of the file. There is none exactly when no line of the file is recognised as the header |
| EcaParser.FirstHeaderAt | temperature.py:39-42 | a `STAID` line with no `STAID` line before it is the header, wherever the data starts |
| EcaParser.Collect | temperature.py:47-49 | the records collected into the two lists give one date and one temperature per line read |
| EcaParser.CollectOk | temperature.py:47-49 | collecting succeeds exactly when every line's record was read |
| EcaParser.CollectAt | temperature.py:47-49 | the k-th date and temperature collected are those of the k-th record, so the order of the lines is kept |
| EcaParser.CollectErr | temperature.py:47-49 | a failed collection reports the error of a failed record with every record before it read, so the first `ValueError` stops the loop |
| EcaParser.ParseLines | temperature.py:35-51 | the two lists returned have equal lengths, and a file with no `STAID` line gives two empty lists |
| EcaParser.ParseLinesOk | temperature.py:35-51 | after the first header at line `h`, the parse succeeds exactly when no later temperature column is rejected. It then yields one date and one temperature for each line after `h`, in order, taken from that line's columns, and every date has 8 characters |
| EcaParser.ParseLinesErr | temperature.py:43-49 | a failed parse names the first line after the header whose temperature column `int()` rejects, with that column's text. Every line between the header and that line parsed |
| EcaParser.ReadData | temperature.py:35-51 | the `data_line` loop returns exactly the parse of the whole line list, stopping at the first rejected record |
| EcaParser.HeaderLineIsHeader | temperature.py:40 | the ECA&D column header line, with its line feed, is recognised as the header |
| EcaParser.HeaderAfterPreamble | temperature.py:36-42 | metadata lines without `STAID`, followed by the header line, put the header right after the metadata |
| EcaParser.FormatRecordColumns | temperature.py:47-49 | a record written in the ECA&D fixed columns gives back its date from `[14:22]` and its temperature from `[23:28]` |
| EcaParser.ParseFormattedFile | temperature.py:35-51 | a file made of metadata, the header line and formatted records parses back to exactly the dates and temperatures written |
| EcaParser.NoHeaderNoData | temperature.py:35-51 | a file without a `STAID` line gives two empty lists |
| EcaParser.BlankLineIsBad | temperature.py:49 | an empty line has an empty temperature column, which `int()` rejects |
| EcaParser.BlankRecordFails | temperature.py:43-49 | a blank line after the header stops the parse with an error for that line |
| Extremes.ScanHighest | temperature.py:62-69 | while `get_highest_temp` has not failed, its running pair is one of the days read so far, with that day's own date, and no day read so far is warmer |
| Extremes.ScanLowest | temperature.py:82-89 | while `get_lowest_temp` has not failed, its running pair is one of the days read so far, with that day's own date, and no day read so far is colder |
| Extremes.ScanHighestSpec | temperature.py:62-69 | after `m` days the scan holds the earliest warmest of those days. It has failed exactly when that day has no date |
| Extremes.ScanLowestSpec | temperature.py:82-89 | after `m` days the scan holds the earliest coldest of those days. It has failed exactly when that day has no date |
| Extremes.ScanHighestFailed | temperature.py:65-68 | once the scan has read past the end of the date list, the result is `IndexError` |
| Extremes.Highest | temperature.py:54-70 | fails exactly on an empty list, or when the earliest warmest day has no date. Otherwise returns that day's date and temperature: no day is warmer, and every earlier day is colder |
| Extremes.Lowest | temperature.py:74-90 | fails exactly on an empty list, or when the earliest coldest day has no date. Otherwise returns that day's date and temperature: no day is colder, and every earlier day is warmer |
| Extremes.GetHighestTemp | temperature.py:62-70 | the loop of `get_highest_temp` computes `Highest`, including its `IndexError`s |
| Extremes.GetLowestTemp | temperature.py:82-90 | the loop of `get_lowest_temp` computes `Lowest`, including its `IndexError`s |
| Extremes.ExtremesOfSeries | temperature.py:62-68 | with a date for every day, both extremes exist for every non-empty series |
| Extremes.LowestMirrorsHighest | temperature.py:74-90 | the coldest day is the warmest day of the negated series, with the sign of its temperature turned back |
| Extremes.HighestExample | temperature.py:57-60 | `(['19010107','19010108','19010109'], [-66,-6,42])` gives `('19010109', 42)` |
| Extremes.LowestExample | temperature.py:77-80 | `(['19010118','19010119','19010120'], [-45,-4,43])` gives `('19010118', -45)` |
| Extremes.EarliestOfEqualWins | temperature.py:66 | for example, with two equal warmest days the first one is returned (`Highest` states this for all inputs) |
| Extremes.MissingDateOnlyOnImprovement | temperature.py:66-68 | for example, a temperature with no date fails when it improves the extreme and not otherwise (`Highest` states this for all inputs) |
| Freezing.ColdRunBefore | temperature.py:122-129 | the run counted before day `i` covers freezing days only, and is preceded by a non-freezing day or by the start of the series |
| Freezing.Step | temperature.py:121-137 | one pass of the loop body: the flag records whether the day froze, and the record never shrinks. It changes only on a thawing day right after a spell, when it takes the spell's length and the previous day's date |
| Freezing.Scan | temperature.py:117-137 | after `m` days the freezing flag is set exactly when day `m - 1` froze. `ScanInvariant` states what the counter, the record and its date mean |
| Freezing.FrostStepKeeps | temperature.py:122-129 | on a freezing day the counter becomes the length of the current spell, and the record is unchanged |
| Freezing.QuietStepKeeps | temperature.py:121-137 | a non-freezing day after a non-freezing day changes nothing, and ends no spell |
| Freezing.RecordStepKeeps | temperature.py:130-137 | a spell ended by a non-freezing day that is longer than the record becomes the record, with its last freezing day as the date |
| Freezing.ShortStepKeeps | temperature.py:130-137 | a spell no longer than the record leaves the record and its date alone |
| Freezing.ScanInvariant | temperature.py:117-137 | after any number of days, the record is zero exactly when no spell has ended yet. Otherwise it is the length and last day of the longest spell ended so far, the earliest on ties |
| Freezing.LongestFreezing | temperature.py:109-138 | fails exactly when a date has no temperature. Otherwise it returns `(0, '')` exactly when no freezing spell is ended by a non-freezing day, and else the longest such spell (earliest on ties) with the date of its last day |
| Freezing.GetLongestFreezing | temperature.py:117-138 | the loop of `get_longest_freezing` computes `LongestFreezing`, including its `IndexError` |
| Freezing.TrailingFrostIgnored | temperature.py:121-138 | a freezing day added at the end never changes the result: a spell running at the end is not counted |
| Freezing.AllFreezingGivesNothing | temperature.py:117-138 | a series in which every day freezes gives `(0, '')` |
| Freezing.LongestBound | temperature.py:117-138 | with a temperature for every date, the result exists and is shorter than the series (or the series is empty) |
| Freezing.FreezingExample | temperature.py:112-115 | `(['19010107','19010108','19010109'], [-66,-6,42])` gives `(2, '19010108')` |
| Calendar.DaysInMonth | temperature.py:103 | February has 28 days in common years and 29 exactly in Gregorian leap years. April, June, September and November have 30, and the other months 31 |
| Calendar.MakeDate | temperature.py:103 | `datetime(y, m, d)` succeeds exactly on a valid Gregorian date in years 1..9999. Otherwise the error is the first failing check: year, then month, then day |
| Calendar.Field | temperature.py:103 | `int(date[lo:hi])` succeeds exactly when the stripped slice is an integer literal and the slice holds no character U+001C..U+001F. A field starting past the end of the date is rejected |
| Calendar.MonthName | temperature.py:104 | `strftime('%B')` is a capitalised English word of at least three letters |
| Calendar.Friendly | temperature.py:104 | the friendly text starts with the day's digits, with no leading zero, followed by a space. It ends with a space and the year's digits, and is at least 7 characters long. `ReadFriendlyRoundTrip` shows the month name in between |
| Calendar.Fields | temperature.py:103 | a date is passed on exactly when all three `int()` calls, on `[0:4]`, `[4:6]` and `[6:8]`, succeed |
| Calendar.FriendlyDate | temperature.py:93-106 | succeeds exactly when the three fields are integers forming a valid date, and then returns its friendly text. Otherwise it fails with the first error in evaluation order |
| Calendar.CompactFields | temperature.py:103 | the fields `[0:4]`, `[4:6]` and `[6:8]` of a zero-padded `YYYYMMDD` text are the numbers written into it |
| Calendar.FriendlyOfCompact | temperature.py:93-106 | every valid date written as `YYYYMMDD` is accepted and turned into its friendly text |
| Calendar.MonthNumberOfName | temperature.py:104 | the twelve month names are distinct, so each name identifies its month |
| Calendar.ReadFriendlyRoundTrip | temperature.py:104 | the friendly text splits back into the day, the month name and the year it was made from |
| Calendar.FriendlyInjective | temperature.py:104 | two different valid dates never get the same friendly text |
| Calendar.FriendlyExample | temperature.py:100-101 | `'19670503'` gives `'3 May 1967'` |
| Calendar.NoThirtiethOfFebruary | temperature.py:103 | `'20210230'` fails with a day out of range, because 2021 is not a leap year |
| Calendar.EmptyDateFails | temperature.py:103 | the empty date that `get_longest_freezing` returns when no spell ended is rejected by `int()` |
| Calendar.SeparatorBeforeYearFails | temperature.py:103 | `'\x1c9670503'` fails on its year field `'\x1c967'`: `int()` does not skip the separator, although `strip()` would |

## Left out

- `read_textfile` (temperature.py:10-19) is left out because it is file I/O. The parser takes the list of lines that `readlines()` would return.
- The script code (temperature.py:141-162) is left out. It reads two fixed files and prints a report.
- The doctest harness (temperature.py:169-172) is left out.
- The division of temperatures by ten (temperature.py:49) is left out. Temperatures stay integer tenths, and every comparison the code makes gives the same answer on them.
- Text.ParseInt: accepts ASCII digits only. Python's `int()` also accepts underscores between digits and non-ASCII decimal digits. ECA&D files contain neither.
- Calendar.FriendlyDate: always uses the English month names, which is what `strftime('%B')` gives in the C locale. Other locales are not modelled.
- EcaParser.ParseRecord: the error carries the 0-based line index as well as the column text. Python's `ValueError` names only the text. The index is not otherwise observable.
- The counting of summer and tropical days per year, and the list of distinct years, are not modelled. The code has no implementation of them: the section at temperature.py:164-167 is empty.
