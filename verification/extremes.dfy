/**
 * The warmest and the coldest day of a series (`get_highest_temp` and `get_lowest_temp`).
 *
 * Both functions start from the first day and scan the whole temperature list, replacing
 * the current extreme only on a STRICT improvement, so the earliest of several equal
 * extremes wins. Besides `dates[0]`, read at the start, they read `dates[i]` only when
 * day `i` improves on the current extreme, so a date list shorter than the temperature
 * list fails only if it is empty or such a day has no date.
 */
module Extremes {
  import opened Results
  import opened Climate

  /** Day `k` holds the warmest temperature, and no earlier day is as warm. */
  ghost predicate IsFirstMax(temps: seq<int>, k: int) {
    && 0 <= k < |temps|
    && (forall j :: 0 <= j < |temps| ==> temps[j] <= temps[k])
    && (forall j :: 0 <= j < k ==> temps[j] < temps[k])
  }

  /** Day `k` holds the coldest temperature, and no earlier day is as cold. */
  ghost predicate IsFirstMin(temps: seq<int>, k: int) {
    && 0 <= k < |temps|
    && (forall j :: 0 <= j < |temps| ==> temps[k] <= temps[j])
    && (forall j :: 0 <= j < k ==> temps[k] < temps[j])
  }

  /** There is only one earliest warmest day. */
  lemma FirstMaxUnique(temps: seq<int>, k: int, l: int)
    requires IsFirstMax(temps, k) && IsFirstMax(temps, l)
    ensures k == l
  {
    assert temps[l] <= temps[k] && temps[k] <= temps[l];
  }

  /** There is only one earliest coldest day. */
  lemma FirstMinUnique(temps: seq<int>, k: int, l: int)
    requires IsFirstMin(temps, k) && IsFirstMin(temps, l)
    ensures k == l
  {
    assert temps[l] <= temps[k] && temps[k] <= temps[l];
  }

  // ---------------------------------------------------------------------------------------
  // The scans, one day at a time

  /** The state of `get_highest_temp` after days `0 .. m-1`: when it has not failed, it is
      one of those days, with its own date, and none of them is warmer. */
  function ScanHighest(dates: seq<string>, temps: seq<int>, m: nat): (r: Result<Reading, IndexError>)
    requires 0 < m <= |temps| && 0 < |dates|
    ensures r.Ok? ==> exists k :: 0 <= k < m && k < |dates| && r.value == Reading(dates[k], temps[k])
    ensures r.Ok? ==> forall j :: 0 <= j < m ==> temps[j] <= r.value.temp
    decreases m
  {
    if m == 1 then Ok(Reading(dates[0], temps[0]))
    else
      match ScanHighest(dates, temps, m - 1)
      case Err(e) => Err(e)
      case Ok(best) =>
        if temps[m - 1] > best.temp then
          if m - 1 < |dates| then Ok(Reading(dates[m - 1], temps[m - 1])) else Err(IndexOutOfRange)
        else Ok(best)
  }

  /** The state of `get_lowest_temp` after days `0 .. m-1`: when it has not failed, it is
      one of those days, with its own date, and none of them is colder. */
  function ScanLowest(dates: seq<string>, temps: seq<int>, m: nat): (r: Result<Reading, IndexError>)
    requires 0 < m <= |temps| && 0 < |dates|
    ensures r.Ok? ==> exists k :: 0 <= k < m && k < |dates| && r.value == Reading(dates[k], temps[k])
    ensures r.Ok? ==> forall j :: 0 <= j < m ==> r.value.temp <= temps[j]
    decreases m
  {
    if m == 1 then Ok(Reading(dates[0], temps[0]))
    else
      match ScanLowest(dates, temps, m - 1)
      case Err(e) => Err(e)
      case Ok(best) =>
        if temps[m - 1] < best.temp then
          if m - 1 < |dates| then Ok(Reading(dates[m - 1], temps[m - 1])) else Err(IndexOutOfRange)
        else Ok(best)
  }

  /** The earliest warmest of days `0 .. m-1`. */
  ghost function FirstMaxIndex(temps: seq<int>, m: nat): (k: nat)
    requires 0 < m <= |temps|
    ensures IsFirstMax(temps[..m], k)
    decreases m
  {
    if m == 1 then 0
    else
      var p := FirstMaxIndex(temps, m - 1);
      assert forall j :: 0 <= j < m - 1 ==> temps[..m][j] == temps[..m - 1][j];
      if temps[m - 1] > temps[p] then m - 1 else p
  }

  /** The earliest coldest of days `0 .. m-1`. */
  ghost function FirstMinIndex(temps: seq<int>, m: nat): (k: nat)
    requires 0 < m <= |temps|
    ensures IsFirstMin(temps[..m], k)
    decreases m
  {
    if m == 1 then 0
    else
      var p := FirstMinIndex(temps, m - 1);
      assert forall j :: 0 <= j < m - 1 ==> temps[..m][j] == temps[..m - 1][j];
      if temps[m - 1] < temps[p] then m - 1 else p
  }

  /**
   * After `m` days the scan holds the earliest warmest of those days, or has failed because
   * that day, or an earlier improvement on the way to it, has no date. Since improvements
   * come in increasing day order and end at the earliest warmest day, failing is the same
   * as that day having no date.
   */
  lemma {:induction false} ScanHighestSpec(dates: seq<string>, temps: seq<int>, m: nat)
    requires 0 < m <= |temps| && 0 < |dates|
    ensures ScanHighest(dates, temps, m).Err? <==> FirstMaxIndex(temps, m) >= |dates|
    ensures ScanHighest(dates, temps, m).Ok? ==>
      ScanHighest(dates, temps, m).value == Reading(dates[FirstMaxIndex(temps, m)], temps[FirstMaxIndex(temps, m)])
    decreases m
  {
    if m > 1 {
      ScanHighestSpec(dates, temps, m - 1);
    }
  }

  /** The mirror image of `ScanHighestSpec` for the coldest day. */
  lemma {:induction false} ScanLowestSpec(dates: seq<string>, temps: seq<int>, m: nat)
    requires 0 < m <= |temps| && 0 < |dates|
    ensures ScanLowest(dates, temps, m).Err? <==> FirstMinIndex(temps, m) >= |dates|
    ensures ScanLowest(dates, temps, m).Ok? ==>
      ScanLowest(dates, temps, m).value == Reading(dates[FirstMinIndex(temps, m)], temps[FirstMinIndex(temps, m)])
    decreases m
  {
    if m > 1 {
      ScanLowestSpec(dates, temps, m - 1);
    }
  }

  /** The whole-series scan for the warmest day, in terms of the earliest warmest day. */
  lemma ScanHighestWhole(dates: seq<string>, temps: seq<int>)
    requires 0 < |temps| && 0 < |dates|
    ensures var r := ScanHighest(dates, temps, |temps|);
      && (r.Err? <==> exists k :: IsFirstMax(temps, k) && k >= |dates|)
      && (r.Ok? ==> exists k :: IsFirstMax(temps, k) && k < |dates| && r.value == Reading(dates[k], temps[k]))
  {
    ScanHighestSpec(dates, temps, |temps|);
    var k := FirstMaxIndex(temps, |temps|);
    assert temps[..|temps|] == temps;
    forall l | IsFirstMax(temps, l) ensures l == k {
      FirstMaxUnique(temps, k, l);
    }
  }

  /** The whole-series scan for the coldest day, in terms of the earliest coldest day. */
  lemma ScanLowestWhole(dates: seq<string>, temps: seq<int>)
    requires 0 < |temps| && 0 < |dates|
    ensures var r := ScanLowest(dates, temps, |temps|);
      && (r.Err? <==> exists k :: IsFirstMin(temps, k) && k >= |dates|)
      && (r.Ok? ==> exists k :: IsFirstMin(temps, k) && k < |dates| && r.value == Reading(dates[k], temps[k]))
  {
    ScanLowestSpec(dates, temps, |temps|);
    var k := FirstMinIndex(temps, |temps|);
    assert temps[..|temps|] == temps;
    forall l | IsFirstMin(temps, l) ensures l == k {
      FirstMinUnique(temps, k, l);
    }
  }

  /** A scan that has failed stays failed. */
  lemma {:induction false} ScanHighestFailed(dates: seq<string>, temps: seq<int>, m: nat, n: nat)
    requires 0 < m <= n <= |temps| && 0 < |dates| && ScanHighest(dates, temps, m).Err?
    ensures ScanHighest(dates, temps, n) == Err(IndexOutOfRange)
    decreases n
  {
    if m < n {
      ScanHighestFailed(dates, temps, m, n - 1);
    } else {
      match ScanHighest(dates, temps, m)
      case Err(IndexOutOfRange) =>
    }
  }

  /** A scan that has failed stays failed. */
  lemma {:induction false} ScanLowestFailed(dates: seq<string>, temps: seq<int>, m: nat, n: nat)
    requires 0 < m <= n <= |temps| && 0 < |dates| && ScanLowest(dates, temps, m).Err?
    ensures ScanLowest(dates, temps, n) == Err(IndexOutOfRange)
    decreases n
  {
    if m < n {
      ScanLowestFailed(dates, temps, m, n - 1);
    } else {
      match ScanLowest(dates, temps, m)
      case Err(IndexOutOfRange) =>
    }
  }

  // ---------------------------------------------------------------------------------------
  // `get_highest_temp` and `get_lowest_temp`

  /**
   * The warmest day and its temperature. Reading `temps[0]` or `dates[0]` of an empty list
   * fails; otherwise the result is the earliest warmest day, which fails only when that day
   * has no date.
   */
  function Highest(dates: seq<string>, temps: seq<int>): (r: Result<Reading, IndexError>)
    ensures r.Err? <==> |temps| == 0 || |dates| == 0 || exists k :: IsFirstMax(temps, k) && k >= |dates|
    ensures r.Ok? ==> exists k :: IsFirstMax(temps, k) && k < |dates| && r.value == Reading(dates[k], temps[k])
  {
    if |temps| == 0 || |dates| == 0 then Err(IndexOutOfRange)
    else
      ScanHighestWhole(dates, temps);
      ScanHighest(dates, temps, |temps|)
  }

  /** The coldest day and its temperature, with the same failures as `Highest`. */
  function Lowest(dates: seq<string>, temps: seq<int>): (r: Result<Reading, IndexError>)
    ensures r.Err? <==> |temps| == 0 || |dates| == 0 || exists k :: IsFirstMin(temps, k) && k >= |dates|
    ensures r.Ok? ==> exists k :: IsFirstMin(temps, k) && k < |dates| && r.value == Reading(dates[k], temps[k])
  {
    if |temps| == 0 || |dates| == 0 then Err(IndexOutOfRange)
    else
      ScanLowestWhole(dates, temps);
      ScanLowest(dates, temps, |temps|)
  }

  /** The loop of `get_highest_temp`. */
  method GetHighestTemp(dates: seq<string>, temps: seq<int>) returns (r: Result<Reading, IndexError>)
    ensures r == Highest(dates, temps)
  {
    if |temps| == 0 || |dates| == 0 {
      return Err(IndexOutOfRange);
    }
    var highestTemp := temps[0];
    var highestTempDate := dates[0];
    for i := 0 to |temps|
      invariant ScanHighest(dates, temps, if i == 0 then 1 else i) == Ok(Reading(highestTempDate, highestTemp))
    {
      if temps[i] > highestTemp {
        if i >= |dates| {
          ScanHighestFailed(dates, temps, i + 1, |temps|);
          return Err(IndexOutOfRange);
        }
        highestTemp := temps[i];
        highestTempDate := dates[i];
      }
    }
    return Ok(Reading(highestTempDate, highestTemp));
  }

  /** The loop of `get_lowest_temp`. */
  method GetLowestTemp(dates: seq<string>, temps: seq<int>) returns (r: Result<Reading, IndexError>)
    ensures r == Lowest(dates, temps)
  {
    if |temps| == 0 || |dates| == 0 {
      return Err(IndexOutOfRange);
    }
    var lowestTemp := temps[0];
    var lowestTempDate := dates[0];
    for i := 0 to |temps|
      invariant ScanLowest(dates, temps, if i == 0 then 1 else i) == Ok(Reading(lowestTempDate, lowestTemp))
    {
      if temps[i] < lowestTemp {
        if i >= |dates| {
          ScanLowestFailed(dates, temps, i + 1, |temps|);
          return Err(IndexOutOfRange);
        }
        lowestTemp := temps[i];
        lowestTempDate := dates[i];
      }
    }
    return Ok(Reading(lowestTempDate, lowestTemp));
  }

  // ---------------------------------------------------------------------------------------
  // Properties

  /** A series read from a file always has its extremes: with a date for every day, the
      only failure left is an empty series. */
  lemma ExtremesOfSeries(dates: seq<string>, temps: seq<int>)
    requires |dates| == |temps| > 0
    ensures Highest(dates, temps).Ok? && Lowest(dates, temps).Ok?
  {
  }

  /** The coldest day is the warmest day of the negated series. */
  lemma {:induction false} ScanLowestMirrorsHighest(dates: seq<string>, temps: seq<int>, m: nat)
    requires 0 < m <= |temps| && 0 < |dates|
    ensures ScanLowest(dates, temps, m) ==
      match ScanHighest(dates, Negate(temps), m)
      case Err(e) => Err(e)
      case Ok(rd) => Ok(Reading(rd.date, -rd.temp))
    decreases m
  {
    if m > 1 {
      ScanLowestMirrorsHighest(dates, temps, m - 1);
    }
  }

  /** `get_lowest_temp` is `get_highest_temp` on negated temperatures, negated back. */
  lemma LowestMirrorsHighest(dates: seq<string>, temps: seq<int>)
    ensures Lowest(dates, temps) ==
      match Highest(dates, Negate(temps))
      case Err(e) => Err(e)
      case Ok(rd) => Ok(Reading(rd.date, -rd.temp))
  {
    if |temps| > 0 && |dates| > 0 {
      ScanLowestMirrorsHighest(dates, temps, |temps|);
    }
  }

  /** The example in the documentation of `get_highest_temp`, in tenths of a degree. */
  lemma HighestExample()
    ensures Highest(["19010107", "19010108", "19010109"], [-66, -6, 42]) == Ok(Reading("19010109", 42))
  {
    var dates := ["19010107", "19010108", "19010109"];
    var temps := [-66, -6, 42];
    assert ScanHighest(dates, temps, 2) == Ok(Reading(dates[1], -6));
  }

  /** The example in the documentation of `get_lowest_temp`, in tenths of a degree. */
  lemma LowestExample()
    ensures Lowest(["19010118", "19010119", "19010120"], [-45, -4, 43]) == Ok(Reading("19010118", -45))
  {
    var dates := ["19010118", "19010119", "19010120"];
    var temps := [-45, -4, 43];
    assert ScanLowest(dates, temps, 2) == Ok(Reading(dates[0], -45));
  }

  /** Equal extremes: the earliest day wins. */
  lemma EarliestOfEqualWins()
    ensures Highest(["19010101", "19010102"], [50, 50]) == Ok(Reading("19010101", 50))
  {
    assert ScanHighest(["19010101", "19010102"], [50, 50], 1) == Ok(Reading("19010101", 50));
  }

  /** Temperatures past the end of the date list fail only when they improve the extreme. */
  lemma MissingDateOnlyOnImprovement()
    ensures Highest(["19010101"], [50, 40]) == Ok(Reading("19010101", 50))
    ensures Highest(["19010101"], [50, 60]) == Err(IndexOutOfRange)
  {
    assert ScanHighest(["19010101"], [50, 40], 1) == Ok(Reading("19010101", 50));
    assert ScanHighest(["19010101"], [50, 60], 1) == Ok(Reading("19010101", 50));
  }
}
