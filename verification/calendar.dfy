/**
 * Friendly dates (`get_friendly_date`): a `YYYYMMDD` date becomes "3 May 1967".
 *
 * The three fields are read with `int()` from the slices `[0:4]`, `[4:6]` and `[6:8]`, in
 * that order, and then handed to `datetime(year, month, day)`, which checks the year, then
 * the month, then the day against the proleptic Gregorian calendar. The text shows the day
 * and the year as plain integers and the month by its English name (`%B` in the C locale).
 */
module Calendar {
  import opened Results
  import opened Text

  datatype Date = Date(year: int, month: int, day: int)

  /** The `ValueError`s `get_friendly_date` can raise. */
  datatype DateError =
    | NotAnInteger(text: string)   // `int()` refused the field's text
    | YearOutOfRange(year: int)
    | MonthOutOfRange(month: int)
    | DayOutOfRange(day: int)      // the day does not exist in that month

  /** `datetime.MINYEAR` and `datetime.MAXYEAR`. */
  const MinYear := 1
  const MaxYear := 9999

  predicate IsLeapYear(year: int) {
    year % 4 == 0 && (year % 100 != 0 || year % 400 == 0)
  }

  function DaysInMonth(year: int, month: int): (n: nat)
    requires 1 <= month <= 12
    ensures 28 <= n <= 31
    ensures n == 28 <==> month == 2 && !IsLeapYear(year)
    ensures n == 29 <==> month == 2 && IsLeapYear(year)
    ensures n == 30 <==> month in {4, 6, 9, 11}
  {
    if month == 2 then (if IsLeapYear(year) then 29 else 28)
    else if month == 4 || month == 6 || month == 9 || month == 11 then 30
    else 31
  }

  /** A date `datetime` accepts. */
  predicate IsValid(d: Date) {
    && MinYear <= d.year <= MaxYear
    && 1 <= d.month <= 12
    && 1 <= d.day <= DaysInMonth(d.year, d.month)
  }

  /** `datetime(year, month, day)`: the first of the three range checks that fails decides the error. */
  function MakeDate(year: int, month: int, day: int): (r: Result<Date, DateError>)
    ensures r.Ok? <==> IsValid(Date(year, month, day))
    ensures r.Ok? ==> r.value == Date(year, month, day)
    ensures r == Err(YearOutOfRange(year)) <==> !(MinYear <= year <= MaxYear)
    ensures r == Err(MonthOutOfRange(month)) <==> MinYear <= year <= MaxYear && !(1 <= month <= 12)
    ensures r == Err(DayOutOfRange(day)) <==>
      MinYear <= year <= MaxYear && 1 <= month <= 12 && !(1 <= day <= DaysInMonth(year, month))
  {
    if !(MinYear <= year <= MaxYear) then Err(YearOutOfRange(year))
    else if !(1 <= month <= 12) then Err(MonthOutOfRange(month))
    else if !(1 <= day <= DaysInMonth(year, month)) then Err(DayOutOfRange(day))
    else Ok(Date(year, month, day))
  }

  const MonthNames: seq<string> := [
    "January", "February", "March", "April", "May", "June",
    "July", "August", "September", "October", "November", "December"
  ]

  /** `strftime('%B')`: a capitalised English word, with no space in it. */
  function MonthName(month: int): (name: string)
    requires 1 <= month <= 12
    ensures |name| >= 3 && 'A' <= name[0] <= 'Z'
    ensures forall k :: 1 <= k < |name| ==> 'a' <= name[k] <= 'z'
  {
    MonthNames[month - 1]
  }

  /** The month called `name`, searching the names from the `k`-th on. */
  function MonthFrom(name: string, k: nat): (r: Option<int>)
    requires k <= 12
    ensures r.Some? ==> k < r.value <= 12 && MonthName(r.value) == name
    ensures r.None? ==> forall j :: k <= j < 12 ==> MonthNames[j] != name
    decreases 12 - k
  {
    if k == 12 then None
    else if MonthNames[k] == name then Some(k + 1)
    else MonthFrom(name, k + 1)
  }

  /** The number of the month called `name`. */
  function MonthNumber(name: string): (r: Option<int>)
    ensures r.Some? ==> 1 <= r.value <= 12 && MonthName(r.value) == name
    ensures r.None? <==> forall m :: 1 <= m <= 12 ==> MonthName(m) != name
  {
    MonthFrom(name, 0)
  }

  /** The text `get_friendly_date` builds from a valid date: day, month name and year,
      separated by single spaces, the numbers without leading zeros. */
  function Friendly(d: Date): (r: string)
    requires IsValid(d)
    ensures |r| >= 7
    ensures IsDigit(r[0]) && r[0] != '0'
    ensures IsDigit(r[|r| - 1])
    ensures |NatToString(d.day)| + |NatToString(d.year)| < |r|
    ensures r[..|NatToString(d.day)|] == NatToString(d.day) && r[|NatToString(d.day)|] == ' '
    ensures r[|r| - |NatToString(d.year)|..] == NatToString(d.year) && r[|r| - |NatToString(d.year)| - 1] == ' '
  {
    NatToString(d.day) + " " + MonthName(d.month) + " " + NatToString(d.year)
  }

  /** `int(date[lo:hi])`: a field that starts past the end of the date is empty, and
      `int()` rejects it. */
  function Field(date: string, lo: nat, hi: nat): (r: Option<int>)
    ensures r.Some? <==> IsIntLiteral(Strip(Slice(date, lo, hi))) && !HasSeparator(Slice(date, lo, hi))
    ensures |date| <= lo ==> r.None?
  {
    ParseInt(Slice(date, lo, hi))
  }

  /** The date `datetime` would receive: the three fields, once all of them are integers. */
  function Fields(date: string): (r: Option<Date>)
    ensures r.Some? <==> Field(date, 0, 4).Some? && Field(date, 4, 6).Some? && Field(date, 6, 8).Some?
  {
    match (Field(date, 0, 4), Field(date, 4, 6), Field(date, 6, 8))
    case (Some(year), Some(month), Some(day)) => Some(Date(year, month, day))
    case _ => None
  }

  /** `get_friendly_date(date)`. */
  function FriendlyDate(date: string): (r: Result<string, DateError>)
    ensures r.Ok? <==> Fields(date).Some? && IsValid(Fields(date).value)
    ensures r.Ok? ==> r.value == Friendly(Fields(date).value)
    ensures Field(date, 0, 4).None? ==> r == Err(NotAnInteger(Slice(date, 0, 4)))
    ensures Field(date, 0, 4).Some? && Field(date, 4, 6).None? ==> r == Err(NotAnInteger(Slice(date, 4, 6)))
    ensures Field(date, 0, 4).Some? && Field(date, 4, 6).Some? && Field(date, 6, 8).None? ==>
      r == Err(NotAnInteger(Slice(date, 6, 8)))
    ensures Fields(date).Some? && !IsValid(Fields(date).value) ==>
      r.Err? && Err(r.error) == MakeDate(Fields(date).value.year, Fields(date).value.month, Fields(date).value.day)
  {
    match Field(date, 0, 4)
    case None => Err(NotAnInteger(Slice(date, 0, 4)))
    case Some(year) =>
      match Field(date, 4, 6)
      case None => Err(NotAnInteger(Slice(date, 4, 6)))
      case Some(month) =>
        match Field(date, 6, 8)
        case None => Err(NotAnInteger(Slice(date, 6, 8)))
        case Some(day) =>
          match MakeDate(year, month, day)
          case Err(e) => Err(e)
          case Ok(d) => Ok(Friendly(d))
  }

  // ---------------------------------------------------------------------------------------
  // Partners: the `YYYYMMDD` text of a date, and reading a friendly date back

  /** A date whose numbers fit the `YYYYMMDD` columns. */
  predicate Writable(d: Date) {
    0 <= d.year < 10000 && 0 <= d.month < 100 && 0 <= d.day < 100
  }

  /** The `YYYYMMDD` text of a date, as the data files write it. */
  function Compact(d: Date): (s: string)
    requires Writable(d)
    ensures |s| == 8
  {
    NatToStringLength(d.year, 4);
    NatToStringLength(d.month, 2);
    NatToStringLength(d.day, 2);
    PadZeros(NatToString(d.year), 4) + PadZeros(NatToString(d.month), 2) + PadZeros(NatToString(d.day), 2)
  }

  /** Fields of widths 4, 2 and 2 side by side are read one by one. */
  lemma FieldsOfColumns(y: string, m: string, dd: string, year: int, month: int, day: int)
    requires |y| == 4 && |m| == 2 && |dd| == 2
    requires ParseInt(y) == Some(year) && ParseInt(m) == Some(month) && ParseInt(dd) == Some(day)
    ensures Fields(y + m + dd) == Some(Date(year, month, day))
  {
    var s := y + m + dd;
    hide ParseInt, Strip, IsStripOf, AllSpace, IsIntLiteral, IsSpace, LeadingSpace;
    assert s[0..4] == y && s[4..6] == m && s[6..8] == dd;
  }

  /** The three fields read from a compact text are the numbers written into it. */
  lemma CompactFields(d: Date)
    requires Writable(d)
    ensures Fields(Compact(d)) == Some(d)
  {
    NatToStringLength(d.year, 4);
    NatToStringLength(d.month, 2);
    NatToStringLength(d.day, 2);
    ParsePadded(d.year, 4);
    ParsePadded(d.month, 2);
    ParsePadded(d.day, 2);
    var y, m, dd := PadZeros(NatToString(d.year), 4), PadZeros(NatToString(d.month), 2), PadZeros(NatToString(d.day), 2);
    assert Compact(d) == y + m + dd;
    hide NatToString, PadZeros, ParseInt, Compact, Fields;
    FieldsOfColumns(y, m, dd, d.year, d.month, d.day);
  }

  /** Every valid date, written as `YYYYMMDD`, comes out as its friendly text. */
  lemma FriendlyOfCompact(d: Date)
    requires IsValid(d)
    ensures FriendlyDate(Compact(d)) == Ok(Friendly(d))
  {
    CompactFields(d);
  }

  /** The position of the first space in `s` at or after `k`, or `|s|` when there is none. */
  function SpaceFrom(s: string, k: nat): (i: nat)
    requires k <= |s|
    ensures k <= i <= |s|
    ensures i < |s| ==> s[i] == ' '
    ensures forall j :: k <= j < i ==> s[j] != ' '
    decreases |s| - k
  {
    if k == |s| || s[k] == ' ' then k else SpaceFrom(s, k + 1)
  }

  /** Reads a friendly date back: a day number, a month name and a year number,
      separated by single spaces. */
  function ReadFriendly(s: string): Option<Date> {
    var i := SpaceFrom(s, 0);
    if i == |s| then None
    else
      var j := SpaceFrom(s, i + 1);
      if j == |s| then None
      else
        var dayText, monthText, yearText := s[..i], s[i + 1..j], s[j + 1..];
        if |dayText| > 0 && AllDigits(dayText) && |yearText| > 0 && AllDigits(yearText) && MonthNumber(monthText).Some? then
          Some(Date(DigitsValue(yearText), MonthNumber(monthText).value, DigitsValue(dayText)))
        else None
  }

  /** Each month's name leads back to that month. */
  lemma MonthNumberOfName(month: int)
    requires 1 <= month <= 12
    ensures MonthNumber(MonthName(month)) == Some(month)
  {
    var r := MonthNumber(MonthName(month));
    assert forall j, k :: 0 <= j < k < 12 ==> MonthNames[j] != MonthNames[k];
  }

  /** No month name holds a space. */
  lemma MonthNameHasNoSpace(month: int)
    requires 1 <= month <= 12
    ensures forall k :: 0 <= k < |MonthName(month)| ==> MonthName(month)[k] != ' '
  {
  }

  /** `SpaceFrom` finds the first space after `k`. */
  lemma SpaceFromAt(s: string, k: nat, a: nat)
    requires k <= a < |s| && s[a] == ' '
    requires forall j :: k <= j < a ==> s[j] != ' '
    ensures SpaceFrom(s, k) == a
  {
  }

  /** Three words joined by single spaces split back into those words, when the first two
      hold no space. */
  lemma SplitWords(a: string, b: string, c: string)
    requires forall k :: 0 <= k < |a| ==> a[k] != ' '
    requires forall k :: 0 <= k < |b| ==> b[k] != ' '
    ensures var s, i, j := a + " " + b + " " + c, |a|, |a| + 1 + |b|;
      && SpaceFrom(s, 0) == i && SpaceFrom(s, i + 1) == j
      && s[..i] == a && s[i + 1..j] == b && s[j + 1..] == c
  {
    var s, i, j := a + " " + b + " " + c, |a|, |a| + 1 + |b|;
    assert s[..i] == a;
    assert s[i + 1..j] == b;
    assert s[j + 1..] == c;
    SpaceFromAt(s, 0, i);
    SpaceFromAt(s, i + 1, j);
  }

  /** A digit string has no space in it. */
  lemma DigitsHaveNoSpace(s: string)
    requires AllDigits(s)
    ensures forall k :: 0 <= k < |s| ==> s[k] != ' '
  {
  }

  /** Two numbers around a month name read back as the date they spell. */
  lemma ReadWords(a: string, b: string, c: string, month: int)
    requires |a| > 0 && AllDigits(a) && |c| > 0 && AllDigits(c)
    requires forall k :: 0 <= k < |b| ==> b[k] != ' '
    requires MonthNumber(b) == Some(month)
    ensures ReadFriendly(a + " " + b + " " + c) == Some(Date(DigitsValue(c), month, DigitsValue(a)))
  {
    hide AllDigits, DigitsValue, MonthNumber, MonthName, SpaceFrom;
    DigitsHaveNoSpace(a);
    SplitWords(a, b, c);
  }

  /** Reading a friendly date back gives the date it was made from. */
  lemma ReadFriendlyRoundTrip(d: Date)
    requires IsValid(d)
    ensures ReadFriendly(Friendly(d)) == Some(d)
  {
    var a, b, c := NatToString(d.day), MonthName(d.month), NatToString(d.year);
    assert Friendly(d) == a + " " + b + " " + c;
    hide NatToString, MonthName, MonthNumber, Friendly, ReadFriendly;
    MonthNameHasNoSpace(d.month);
    MonthNumberOfName(d.month);
    ReadWords(a, b, c, d.month);
  }

  /** Different valid dates never share a friendly text. */
  lemma FriendlyInjective(d: Date, e: Date)
    requires IsValid(d) && IsValid(e)
    requires Friendly(d) == Friendly(e)
    ensures d == e
  {
    ReadFriendlyRoundTrip(d);
    ReadFriendlyRoundTrip(e);
  }

  // ---------------------------------------------------------------------------------------
  // Examples

  /** The year of the first example, in decimal. */
  lemma Year1967()
    ensures NatToString(1967) == "1967"
  {
    assert NatToString(196) == "196" by {
      assert NatToString(19) == "19";
    }
  }

  /** The year of the second example, in decimal. */
  lemma Year2021()
    ensures NatToString(2021) == "2021"
  {
    assert NatToString(202) == "202" by {
      assert NatToString(20) == "20";
    }
  }

  /** The days and months of the examples, in decimal. */
  lemma ExampleDays()
    ensures NatToString(2) == "2" && NatToString(3) == "3" && NatToString(5) == "5" && NatToString(30) == "30"
  {
  }

  /** The example dates, zero-padded. */
  lemma ExamplePadding()
    ensures PadZeros("1967", 4) == "1967" && PadZeros("2021", 4) == "2021" && PadZeros("30", 2) == "30"
    ensures PadZeros("2", 2) == "02" && PadZeros("3", 2) == "03" && PadZeros("5", 2) == "05"
  {
  }

  /** The example in the documentation of `get_friendly_date`. */
  lemma FriendlyExample()
    ensures FriendlyDate("19670503") == Ok("3 May 1967")
  {
    var d := Date(1967, 5, 3);
    Year1967();
    ExampleDays();
    ExamplePadding();
    hide NatToString, PadZeros, FriendlyDate;
    assert Compact(d) == "19670503";
    assert Friendly(d) == "3 May 1967";
    FriendlyOfCompact(d);
  }

  /** A day that does not exist in its month: 2021 is no leap year. */
  lemma NoThirtiethOfFebruary()
    ensures FriendlyDate("20210230") == Err(DayOutOfRange(30))
  {
    var d := Date(2021, 2, 30);
    Year2021();
    ExampleDays();
    ExamplePadding();
    hide NatToString, PadZeros, Field, ParseInt, Slice, Strip, IsStripOf, AllSpace, IsSpace, LeadingSpace, IsIntLiteral;
    assert Compact(d) == "20210230";
    CompactFields(d);
  }

  /** An empty date, as `get_longest_freezing` returns when no spell ended, is not a date. */
  lemma EmptyDateFails()
    ensures FriendlyDate("") == Err(NotAnInteger(""))
  {
  }

  /** A leading information separator is whitespace to `strip()` but not to `int()`:
      the year field `'\x1c967'` is rejected instead of being read as 967. */
  lemma SeparatorBeforeYearFails()
    ensures FriendlyDate("\U{1C}9670503") == Err(NotAnInteger("\U{1C}967"))
  {
    var date := "\U{1C}9670503";
    assert Slice(date, 0, 4) == "\U{1C}967";
    assert IsSeparator(Slice(date, 0, 4)[0]);
  }
}
