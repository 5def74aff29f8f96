/**
 * The ECA&D record parser (`read_data` in temperature.py, without the file read).
 *
 * An ECA&D station file starts with free-form metadata, then a column header line whose
 * trimmed text starts with `STAID`, then one fixed-column record per line: the date
 * `YYYYMMDD` in columns 14..21 and the temperature in tenths of a degree, right-justified,
 * in columns 23..27 (0-based). Every line after the header is read as a record; a record
 * whose temperature column is not an integer literal stops the whole parse.
 *
 * The proofs about the bookkeeping (finding the header, collecting records in order,
 * stopping at the first failure) hide the column functions and use only their contracts.
 * Their `hide` lists all name the same functions: the column readers and the text
 * functions beneath them (strip, slice, integer literal). None of those proofs depends
 * on how a column is read, and unfolding the text functions for every line would only
 * give the solver more to search.
 */
module EcaParser {
  import opened Results
  import opened Text
  import opened Climate

  /** The error `int()` raises on a malformed temperature column: the 0-based index of the
      line in the input and the stripped column text. */
  datatype ParseError = InvalidLiteral(line: nat, text: string)

  // ---------------------------------------------------------------------------------------
  // The ECA&D column layout

  const HeaderToken := "STAID"

  /** The column header that ends the file's metadata block. Dropping the line feed first
      makes no difference: the test is on the line's text without its whitespace ends. */
  function IsHeader(line: string): (b: bool)
    ensures b <==> StartsWith(Strip(line), HeaderToken)
  {
    StripIgnoresNewlines(line);
    StartsWith(Strip(StripNewlines(line)), HeaderToken)
  }

  /** The date column `line[14:22]` of a record, after the line feed is dropped. It is
      complete exactly when the line holds 22 characters besides its line feeds, and is then
      those columns of the line as read. */
  function DateField(line: string): (r: string)
    ensures |r| <= 8
    ensures |r| == 8 <==> |StripNewlines(line)| >= 22
    ensures |r| == 8 ==> r == line[14..22]
  {
    Slice(StripNewlines(line), 14, 22)
  }

  /** The temperature column `line[23:28].strip()` of a record: at most five characters,
      with no whitespace at either end, and empty when the line stops before column 23. */
  function TempField(line: string): (r: string)
    ensures |r| <= 5
    ensures |r| > 0 ==> !IsSpace(r[0]) && !IsSpace(r[|r| - 1])
    ensures |StripNewlines(line)| <= 23 ==> r == []
  {
    Strip(Slice(StripNewlines(line), 23, 28))
  }

  /** A record line whose temperature column does not parse. */
  predicate IsBadRecord(line: string) {
    ParseInt(TempField(line)).None?
  }

  /** The record on line `index`: its date column and its temperature column as an integer. */
  function ParseRecord(line: string, index: nat): (r: Result<Reading, ParseError>)
    ensures r.Err? <==> IsBadRecord(line)
    ensures r.Err? ==> r.error == InvalidLiteral(index, TempField(line))
    ensures r.Ok? ==> r.value.date == DateField(line)
    ensures r.Ok? ==> ParseInt(TempField(line)) == Some(r.value.temp)
    ensures r.Ok? ==> |r.value.date| == 8
  {
    var field := TempField(line);
    match ParseInt(field)
    case None => Err(InvalidLiteral(index, field))
    case Some(t) => Ok(Reading(DateField(line), t))
  }

  // ---------------------------------------------------------------------------------------
  // Bookkeeping, for any header test and record reader

  /** The first header among the first `n` lines. */
  function FirstHeader(lines: seq<string>, n: nat, isHeader: string -> bool): (r: Option<nat>)
    requires n <= |lines|
    ensures r.None? ==> forall j :: 0 <= j < n ==> !isHeader(lines[j])
    ensures r.Some? ==> r.value < n && isHeader(lines[r.value])
    ensures r.Some? ==> forall j :: 0 <= j < r.value ==> !isHeader(lines[j])
    decreases n
  {
    if n == 0 then None
    else match FirstHeader(lines, n - 1, isHeader)
      case Some(h) => Some(h)
      case None => if isHeader(lines[n - 1]) then Some(n - 1) else None
  }

  /** A header with no header before it is the first header. */
  lemma {:induction false} FirstHeaderAt(lines: seq<string>, n: nat, isHeader: string -> bool, h: nat)
    requires h < n <= |lines| && isHeader(lines[h])
    requires forall j :: 0 <= j < h ==> !isHeader(lines[j])
    ensures FirstHeader(lines, n, isHeader) == Some(h)
    decreases n
  {
    if h < n - 1 {
      FirstHeaderAt(lines, n - 1, isHeader, h);
    } else {
      assert FirstHeader(lines, n - 1, isHeader).None?;
    }
  }

  /** Later lines do not move the first header once there is one. */
  lemma {:induction false} FirstHeaderStable(lines: seq<string>, m: nat, n: nat, isHeader: string -> bool)
    requires m <= n <= |lines| && FirstHeader(lines, m, isHeader).Some?
    ensures FirstHeader(lines, n, isHeader) == FirstHeader(lines, m, isHeader)
    decreases n
  {
    if m < n {
      FirstHeaderStable(lines, m, n - 1, isHeader);
    }
  }

  /** The records read from lines `first .. last-1`, in order: record `k` is the one read
      from line `first + k`. */
  function Records(lines: seq<string>, first: nat, last: nat): (rows: seq<Result<Reading, ParseError>>)
    requires first <= last <= |lines|
  {
    seq(last - first, k requires 0 <= k < last - first => ParseRecord(lines[first + k], first + k))
  }

  /** Reading one more line appends its record. */
  lemma RecordsSnoc(lines: seq<string>, first: nat, last: nat)
    requires first <= last < |lines|
    ensures Records(lines, first, last + 1) == Records(lines, first, last) + [ParseRecord(lines[last], last)]
  {
    hide ParseRecord, IsBadRecord, TempField, DateField, ParseInt, IsHeader, Strip, StripNewlines, StartsWith, IsStripOf, AllSpace, Slice, IsIntLiteral, LeadingSpace, TrailingSpace, TrailingNewlines, IsSpace;
    assert Records(lines, first, last + 1)[..last - first] == Records(lines, first, last);
  }

  /** Unzips records into a series, in order; the first failing record wins. */
  function Collect(rows: seq<Result<Reading, ParseError>>): (r: Result<Series, ParseError>)
    ensures r.Ok? ==> |r.value.dates| == |r.value.temps| == |rows|
    decreases |rows|
  {
    if |rows| == 0 then Ok(EmptySeries)
    else
      match Collect(rows[..|rows| - 1])
      case Err(e) => Err(e)
      case Ok(s) =>
        match rows[|rows| - 1]
        case Err(e) => Err(e)
        case Ok(rd) => Ok(Series(s.dates + [rd.date], s.temps + [rd.temp]))
  }

  /** Collecting succeeds exactly when every record was read. */
  lemma {:induction false} CollectOk(rows: seq<Result<Reading, ParseError>>)
    ensures Collect(rows).Ok? <==> forall k :: 0 <= k < |rows| ==> rows[k].Ok?
    decreases |rows|
  {
    if |rows| > 0 {
      var init := rows[..|rows| - 1];
      CollectOk(init);
      assert forall k :: 0 <= k < |init| ==> init[k] == rows[k];
    }
  }

  /** A collected series keeps every record in its place. */
  lemma {:induction false} CollectAt(rows: seq<Result<Reading, ParseError>>, k: nat)
    requires Collect(rows).Ok? && k < |rows|
    ensures rows[k] == Ok(Reading(Collect(rows).value.dates[k], Collect(rows).value.temps[k]))
    decreases |rows|
  {
    var init := rows[..|rows| - 1];
    if k < |init| {
      CollectAt(init, k);
      assert init[k] == rows[k];
    }
  }

  /** A failed collection reports the error of the first record that failed, at index `k`. */
  lemma {:induction false} CollectErr(rows: seq<Result<Reading, ParseError>>) returns (k: nat)
    requires Collect(rows).Err?
    ensures k < |rows| && rows[k] == Err(Collect(rows).error)
    ensures forall j :: 0 <= j < k ==> rows[j].Ok?
    decreases |rows|
  {
    var init := rows[..|rows| - 1];
    assert forall j :: 0 <= j < |init| ==> init[j] == rows[j];
    if Collect(init).Err? {
      k := CollectErr(init);
    } else {
      CollectOk(init);
      k := |rows| - 1;
    }
  }

  /** One more record extends the collected series by that record, unless something failed. */
  lemma CollectSnoc(rows: seq<Result<Reading, ParseError>>, next: Result<Reading, ParseError>)
    ensures Collect(rows + [next]) ==
      match Collect(rows)
      case Err(e) => Err(e)
      case Ok(s) =>
        match next
        case Err(e) => Err(e)
        case Ok(rd) => Ok(Series(s.dates + [rd.date], s.temps + [rd.temp]))
  {
    assert (rows + [next])[..|rows|] == rows;
  }

  /** Once the records up to some line fail, later lines no longer matter. */
  lemma {:induction false} CollectKeepsFirstError(lines: seq<string>, first: nat, last: nat)
    requires first <= last <= |lines| && Collect(Records(lines, first, last)).Err?
    ensures Collect(Records(lines, first, |lines|)) == Collect(Records(lines, first, last))
    decreases |lines| - last
  {
    if last < |lines| {
      RecordsSnoc(lines, first, last);
      CollectSnoc(Records(lines, first, last), ParseRecord(lines[last], last));
      CollectKeepsFirstError(lines, first, last + 1);
    }
  }

  // ---------------------------------------------------------------------------------------
  // `read_data`

  /** Where the metadata block ends, if it ever does. */
  function HeaderIndex(lines: seq<string>): (r: Option<nat>)
    ensures r.None? <==> forall j :: 0 <= j < |lines| ==> !IsHeader(lines[j])
    ensures r.Some? ==> r.value < |lines| && IsHeader(lines[r.value])
    ensures r.Some? ==> forall j :: 0 <= j < r.value ==> !IsHeader(lines[j])
  {
    FirstHeader(lines, |lines|, IsHeader)
  }

  /** The parsed series of a whole file: nothing before the header, one pair per line after it. */
  function ParseLines(lines: seq<string>): (r: Result<Series, ParseError>)
    ensures r.Ok? ==> |r.value.dates| == |r.value.temps|
    ensures HeaderIndex(lines).None? ==> r == Ok(EmptySeries)
  {
    match HeaderIndex(lines)
    case None => Ok(EmptySeries)
    case Some(h) => Collect(Records(lines, h + 1, |lines|))
  }

  /** A successful parse holds, for each line after the header, that line's columns. */
  lemma ParsedColumns(lines: seq<string>, h: nat)
    requires HeaderIndex(lines) == Some(h) && ParseLines(lines).Ok?
    ensures |ParseLines(lines).value.dates| == |lines| - h - 1
    ensures forall k :: h < k < |lines| ==>
      && !IsBadRecord(lines[k])
      && ParseLines(lines).value.dates[k - h - 1] == DateField(lines[k])
      && ParseInt(TempField(lines[k])) == Some(ParseLines(lines).value.temps[k - h - 1])
  {
    hide ParseRecord, IsBadRecord, TempField, DateField, ParseInt, IsHeader, Strip, StripNewlines, StartsWith, IsStripOf, AllSpace, Slice, IsIntLiteral, LeadingSpace, TrailingSpace, TrailingNewlines, IsSpace;
    var rows := Records(lines, h + 1, |lines|);
    var r := ParseLines(lines);
    assert r == Collect(rows);
    forall k | h < k < |lines|
      ensures !IsBadRecord(lines[k])
      ensures r.value.dates[k - h - 1] == DateField(lines[k])
      ensures ParseInt(TempField(lines[k])) == Some(r.value.temps[k - h - 1])
    {
      CollectAt(rows, k - h - 1);
      assert rows[k - h - 1] == ParseRecord(lines[k], k);
    }
  }

  /** Every date of a successful parse is a full `YYYYMMDD` column. */
  lemma ParsedDates(lines: seq<string>, h: nat)
    requires HeaderIndex(lines) == Some(h) && ParseLines(lines).Ok?
    ensures forall k :: 0 <= k < |ParseLines(lines).value.dates| ==> |ParseLines(lines).value.dates[k]| == 8
  {
    hide ParseRecord, IsBadRecord, TempField, DateField, ParseInt, IsHeader, Strip, StripNewlines, StartsWith, IsStripOf, AllSpace, Slice, IsIntLiteral, LeadingSpace, TrailingSpace, TrailingNewlines, IsSpace;
    var rows := Records(lines, h + 1, |lines|);
    var r := ParseLines(lines);
    assert r == Collect(rows);
    forall k | 0 <= k < |r.value.dates|
      ensures |r.value.dates[k]| == 8
    {
      CollectAt(rows, k);
      assert rows[k] == ParseRecord(lines[h + 1 + k], h + 1 + k);
    }
  }

  /**
   * When the first header is at line `h`, the parse succeeds exactly when every later
   * line's temperature column is an integer literal, and then the series holds, in order,
   * one full date column and one temperature per line after the header.
   */
  lemma ParseLinesOk(lines: seq<string>, h: nat)
    requires HeaderIndex(lines) == Some(h)
    ensures ParseLines(lines).Ok? <==> forall k :: h < k < |lines| ==> !IsBadRecord(lines[k])
    ensures ParseLines(lines).Ok? ==> |ParseLines(lines).value.dates| == |lines| - h - 1
    ensures ParseLines(lines).Ok? ==> forall k :: h < k < |lines| ==>
      && ParseLines(lines).value.dates[k - h - 1] == DateField(lines[k])
      && ParseInt(TempField(lines[k])) == Some(ParseLines(lines).value.temps[k - h - 1])
    ensures ParseLines(lines).Ok? ==> forall k :: 0 <= k < |ParseLines(lines).value.dates| ==>
      |ParseLines(lines).value.dates[k]| == 8
  {
    hide ParseRecord, IsBadRecord, TempField, DateField, ParseInt, IsHeader, Strip, StripNewlines, StartsWith, IsStripOf, AllSpace, Slice, IsIntLiteral, LeadingSpace, TrailingSpace, TrailingNewlines, IsSpace;
    if ParseLines(lines).Ok? {
      ParsedColumns(lines, h);
      ParsedDates(lines, h);
    } else {
      var rows := Records(lines, h + 1, |lines|);
      assert ParseLines(lines) == Collect(rows);
      CollectOk(rows);
      var k := CollectErr(rows);
      assert rows[k] == ParseRecord(lines[h + 1 + k], h + 1 + k);
    }
  }

  /**
   * A failed parse names the first line after the header whose temperature column is not
   * an integer literal, together with that column's text.
   */
  lemma ParseLinesErr(lines: seq<string>, h: nat)
    requires HeaderIndex(lines) == Some(h)
    requires ParseLines(lines).Err?
    ensures h < ParseLines(lines).error.line < |lines|
    ensures IsBadRecord(lines[ParseLines(lines).error.line])
    ensures ParseLines(lines).error.text == TempField(lines[ParseLines(lines).error.line])
    ensures forall k :: h < k < ParseLines(lines).error.line ==> !IsBadRecord(lines[k])
  {
    hide ParseRecord, IsBadRecord, TempField, DateField, ParseInt, IsHeader, Strip, StripNewlines, StartsWith, IsStripOf, AllSpace, Slice, IsIntLiteral, LeadingSpace, TrailingSpace, TrailingNewlines, IsSpace;
    var rows := Records(lines, h + 1, |lines|);
    var r := ParseLines(lines);
    assert r == Collect(rows);
    var k := CollectErr(rows);
    var bad := ParseRecord(lines[h + 1 + k], h + 1 + k);
    assert rows[k] == bad;
    assert r.error == bad.error == InvalidLiteral(h + 1 + k, TempField(lines[h + 1 + k]));
    forall j | h < j < h + 1 + k
      ensures !IsBadRecord(lines[j])
    {
      var rd := ParseRecord(lines[j], j);
      assert rows[j - h - 1] == rd;
    }
  }

  /** After the header at line `h`, the parse is the collection of every later line's record. */
  lemma ParseLinesAfterHeader(lines: seq<string>, h: nat)
    requires HeaderIndex(lines) == Some(h)
    ensures ParseLines(lines) == Collect(Records(lines, h + 1, |lines|))
  {
    hide ParseRecord, IsBadRecord, TempField, DateField, ParseInt, IsHeader, Strip, StripNewlines, StartsWith, IsStripOf, AllSpace, Slice, IsIntLiteral, LeadingSpace, TrailingSpace, TrailingNewlines, IsSpace;
  }

  /** The loop of `read_data`: a `data_line` flag turned on by the header line, then one
      record per line, failing at the first temperature column `int()` rejects. */
  method ReadData(lines: seq<string>) returns (r: Result<Series, ParseError>)
    ensures r == ParseLines(lines)
  {
    hide ParseRecord, IsBadRecord, TempField, DateField, ParseInt, IsHeader, Strip, StripNewlines, StartsWith, IsStripOf, AllSpace, Slice, IsIntLiteral, LeadingSpace, TrailingSpace, TrailingNewlines, IsSpace;
    var isHeader: string -> bool := IsHeader;
    var dates: seq<string> := [];
    var temps: seq<int> := [];
    var dataLine := false;
    ghost var header: nat := 0;
    for i := 0 to |lines|
      invariant dataLine <==> FirstHeader(lines, i, isHeader).Some?
      invariant !dataLine ==> dates == [] && temps == []
      invariant dataLine ==> FirstHeader(lines, i, isHeader) == Some(header) && header < i
      invariant dataLine ==> Collect(Records(lines, header + 1, i)) == Ok(Series(dates, temps))
    {
      if !dataLine {
        if isHeader(lines[i]) {
          dataLine := true;
          header := i;
        }
      } else {
        var record := ParseRecord(lines[i], i);
        RecordsSnoc(lines, header + 1, i);
        CollectSnoc(Records(lines, header + 1, i), record);
        if record.Err? {
          CollectKeepsFirstError(lines, header + 1, i + 1);
          FirstHeaderStable(lines, i, |lines|, isHeader);
          ParseLinesAfterHeader(lines, header);
          return Err(record.error);
        }
        dates := dates + [record.value.date];
        temps := temps + [record.value.temp];
      }
    }
    if dataLine {
      ParseLinesAfterHeader(lines, header);
    }
    r := Ok(Series(dates, temps));
  }

  // ---------------------------------------------------------------------------------------
  // Writing records, to state what the parser reads back

  /** Spaces only, used to right-justify a column. */
  function Spaces(n: nat): (r: string)
    ensures |r| == n && forall k :: 0 <= k < n ==> r[k] == ' '
  {
    if n == 0 then "" else Spaces(n - 1) + " "
  }

  /** The columns in front of the date: station and source identifiers, 14 characters. */
  const IdColumns := "   260,     1,"

  /** The column header line of an ECA&D daily maximum temperature file. */
  const HeaderLine := HeaderText + "\n"

  /** The text of the column header line. */
  const HeaderText := "STAID, SOUID,    DATE,   TX, Q_TX"

  /** One ECA&D record line as `readlines()` returns it: identifiers, the date, the
      temperature right-justified in five columns and a quality flag. */
  function FormatRecord(date: string, temp: int): (line: string)
    requires |date| == 8 && -9999 <= temp <= 99999
    ensures |line| == 35 && line[|line| - 1] == '\n'
  {
    var t := IntToString(temp);
    assert |t| <= 5 by {
      if temp < 0 { NatToStringLength(-temp, 4); } else { NatToStringLength(temp, 5); }
    }
    IdColumns + date + "," + Spaces(5 - |t|) + t + ",    0\n"
  }

  /** Record lines for a whole series. */
  function FormatRecords(dates: seq<string>, temps: seq<int>): (lines: seq<string>)
    requires |dates| == |temps|
    requires forall k :: 0 <= k < |dates| ==> |dates[k]| == 8
    requires forall k :: 0 <= k < |temps| ==> -9999 <= temps[k] <= 99999
    ensures |lines| == |dates|
    ensures forall k :: 0 <= k < |lines| ==> lines[k] == FormatRecord(dates[k], temps[k])
  {
    seq(|dates|, k requires 0 <= k < |dates| => FormatRecord(dates[k], temps[k]))
  }

  /** The date and temperature columns of a formatted record read back as written. */
  lemma FormatRecordColumns(date: string, temp: int)
    requires |date| == 8 && -9999 <= temp <= 99999
    ensures DateField(FormatRecord(date, temp)) == date
    ensures ParseInt(TempField(FormatRecord(date, temp))) == Some(temp)
  {
    hide IsStripOf, AllSpace, IsSpace, LeadingSpace, TrailingSpace, IsIntLiteral, StartsWith, ParseInt, Strip, TrailingNewlines;
    var line := FormatRecord(date, temp);
    var t := IntToString(temp);
    var pad := Spaces(5 - |t|);
    var body := IdColumns + date + "," + pad + t + ",    0";
    assert line == body + "\n";
    DropLineFeed(body);
    assert body[14..22] == date;
    assert body[23..28] == pad + t;
    StripPadded(pad, t);
    assert TempField(line) == t;
    ParseIntRoundTrip(temp);
  }

  /** The header line without its line feed and whitespace ends. */
  lemma HeaderLineText()
    ensures Strip(StripNewlines(HeaderLine)) == HeaderText
  {
    DropLineFeed(HeaderText);
    StripTrimmed(HeaderText);
  }

  /** The header line is recognised as one. */
  lemma HeaderLineIsHeader()
    ensures IsHeader(HeaderLine)
  {
    HeaderLineText();
    hide Strip, StripNewlines;
    assert HeaderText[..|HeaderToken|] == HeaderToken;
  }

  /** The first header of metadata lines followed by the header line is the header line. */
  lemma HeaderAfterPreamble(preamble: seq<string>, rest: seq<string>)
    requires forall k :: 0 <= k < |preamble| ==> !IsHeader(preamble[k])
    ensures HeaderIndex(preamble + [HeaderLine] + rest) == Some(|preamble|)
  {
    hide IsHeader, Strip, StripNewlines, StartsWith, IsStripOf, AllSpace, Slice, IsIntLiteral, LeadingSpace, TrailingSpace, TrailingNewlines, IsSpace;
    var lines := preamble + [HeaderLine] + rest;
    HeaderLineIsHeader();
    assert lines[|preamble|] == HeaderLine;
    assert forall j :: 0 <= j < |preamble| ==> lines[j] == preamble[j];
    FirstHeaderAt(lines, |lines|, IsHeader, |preamble|);
  }

  /** Record `k` of a formatted file sits on line `|preamble| + 1 + k` and reads back as written. */
  lemma FormattedLine(preamble: seq<string>, dates: seq<string>, temps: seq<int>, k: nat)
    requires |dates| == |temps| && k < |dates|
    requires forall k :: 0 <= k < |dates| ==> |dates[k]| == 8
    requires forall k :: 0 <= k < |temps| ==> -9999 <= temps[k] <= 99999
    ensures var line := (preamble + [HeaderLine] + FormatRecords(dates, temps))[|preamble| + 1 + k];
      && !IsBadRecord(line)
      && DateField(line) == dates[k]
      && ParseInt(TempField(line)) == Some(temps[k])
  {
    hide TempField, DateField, ParseInt, FormatRecord;
    var lines := preamble + [HeaderLine] + FormatRecords(dates, temps);
    assert lines[|preamble| + 1 + k] == FormatRecord(dates[k], temps[k]);
    FormatRecordColumns(dates[k], temps[k]);
  }

  /** No formatted record is rejected. */
  lemma FormattedFileParses(preamble: seq<string>, dates: seq<string>, temps: seq<int>)
    requires forall k :: 0 <= k < |preamble| ==> !IsHeader(preamble[k])
    requires |dates| == |temps|
    requires forall k :: 0 <= k < |dates| ==> |dates[k]| == 8
    requires forall k :: 0 <= k < |temps| ==> -9999 <= temps[k] <= 99999
    ensures ParseLines(preamble + [HeaderLine] + FormatRecords(dates, temps)).Ok?
  {
    hide ParseRecord, TempField, DateField, ParseInt, IsHeader, IsBadRecord, FormatRecord, FormatRecords, ParseLines, HeaderIndex, Strip, StripNewlines, StartsWith, IsStripOf, AllSpace, Slice, IsIntLiteral, LeadingSpace, TrailingSpace, TrailingNewlines, IsSpace;
    var lines := preamble + [HeaderLine] + FormatRecords(dates, temps);
    var h := |preamble|;
    HeaderAfterPreamble(preamble, FormatRecords(dates, temps));
    forall j | h < j < |lines|
      ensures !IsBadRecord(lines[j])
    {
      FormattedLine(preamble, dates, temps, j - h - 1);
    }
    ParseLinesOk(lines, h);
  }

  /**
   * Reading a file made of metadata lines, the column header and formatted records gives
   * back exactly the dates and temperatures that were written.
   */
  lemma ParseFormattedFile(preamble: seq<string>, dates: seq<string>, temps: seq<int>)
    requires forall k :: 0 <= k < |preamble| ==> !IsHeader(preamble[k])
    requires |dates| == |temps|
    requires forall k :: 0 <= k < |dates| ==> |dates[k]| == 8
    requires forall k :: 0 <= k < |temps| ==> -9999 <= temps[k] <= 99999
    ensures ParseLines(preamble + [HeaderLine] + FormatRecords(dates, temps)) == Ok(Series(dates, temps))
  {
    hide ParseRecord, TempField, DateField, ParseInt, IsHeader, IsBadRecord, FormatRecord, FormatRecords, ParseLines, HeaderIndex, Strip, StripNewlines, StartsWith, IsStripOf, AllSpace, Slice, IsIntLiteral, LeadingSpace, TrailingSpace, TrailingNewlines, IsSpace;
    var lines := preamble + [HeaderLine] + FormatRecords(dates, temps);
    var h := |preamble|;
    HeaderAfterPreamble(preamble, FormatRecords(dates, temps));
    FormattedFileParses(preamble, dates, temps);
    ParseLinesOk(lines, h);
    var r := ParseLines(lines);
    forall k | 0 <= k < |dates|
      ensures r.value.dates[k] == dates[k] && r.value.temps[k] == temps[k]
    {
      FormattedLine(preamble, dates, temps, k);
      assert r.value.dates[(h + 1 + k) - h - 1] == DateField(lines[h + 1 + k]);
    }
    assert r.value.dates == dates;
    assert r.value.temps == temps;
  }

  /** A file without a `STAID` header line yields an empty series. */
  lemma NoHeaderNoData(lines: seq<string>)
    requires forall k :: 0 <= k < |lines| ==> !IsHeader(lines[k])
    ensures ParseLines(lines) == Ok(EmptySeries)
  {
  }

  /** An empty line has an empty temperature column, which `int()` rejects. */
  lemma BlankLineIsBad()
    ensures TempField("\n") == "" && IsBadRecord("\n")
  {
    DropLineFeed("");
  }

  /** A blank line after the header has no temperature and stops the parse at that line. */
  lemma BlankRecordFails(preamble: seq<string>)
    requires forall k :: 0 <= k < |preamble| ==> !IsHeader(preamble[k])
    ensures ParseLines(preamble + [HeaderLine, "\n"]) == Err(InvalidLiteral(|preamble| + 1, ""))
  {
    hide ParseRecord, IsBadRecord, TempField, DateField, ParseInt, IsHeader, Strip, StripNewlines, StartsWith, IsStripOf, AllSpace, Slice, IsIntLiteral, LeadingSpace, TrailingSpace, TrailingNewlines, IsSpace;
    var lines := preamble + [HeaderLine] + ["\n"];
    assert lines == preamble + [HeaderLine, "\n"];
    HeaderAfterPreamble(preamble, ["\n"]);
    BlankLineIsBad();
    assert IsBadRecord(lines[|preamble| + 1]);
    ParseLinesOk(lines, |preamble|);
    ParseLinesErr(lines, |preamble|);
  }
}
