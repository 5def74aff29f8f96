/**
 * The longest freezing spell (`get_longest_freezing`).
 *
 * A freezing day has a maximum temperature below zero. The scan keeps a `was_freezing`
 * flag and the length of the current spell, and compares a spell with the record only on
 * the first non-freezing day after it: that is when the record and the spell's last day
 * are updated, and only on a STRICT improvement, so the earliest of equally long spells
 * wins. A spell still running on the last day of the series is never compared, and the
 * spell counter is not cleared when a spell ends, only restarted at 1 by the next one.
 */
module Freezing {
  import opened Results
  import opened Climate

  /** The loop variables of `get_longest_freezing`. */
  datatype FreezeState = FreezeState(wasFreezing: bool, run: nat, longest: nat, lastDay: string)

  const Start := FreezeState(false, 0, 0, "")

  /** The returned pair: the length of the longest spell and the date of its last day. */
  datatype FreezingPeriod = FreezingPeriod(days: nat, lastDay: string)

  // ---------------------------------------------------------------------------------------
  // What the scan computes

  /** How many freezing days come right before day `i`. */
  function ColdRunBefore(temps: seq<int>, i: nat): (n: nat)
    requires i <= |temps|
    ensures n <= i
    ensures forall j :: i - n <= j < i ==> temps[j] < 0
    ensures n < i ==> temps[i - n - 1] >= 0
    decreases i
  {
    if i == 0 || temps[i - 1] >= 0 then 0 else 1 + ColdRunBefore(temps, i - 1)
  }

  /** Day `b` ends a freezing spell: the day before it froze and day `b` itself did not. */
  predicate EndsSpell(temps: seq<int>, b: int) {
    0 < b < |temps| && temps[b] >= 0 && temps[b - 1] < 0
  }

  /**
   * Among the spells ended on one of the first `m` days, the spell ended on day `b` is the
   * longest, and it ended before every other spell of the same length.
   */
  ghost predicate IsRecordSpell(temps: seq<int>, m: nat, b: int) {
    && b < m && EndsSpell(temps, b)
    && (forall c :: 0 <= c < m && EndsSpell(temps, c) ==> ColdRunBefore(temps, c) <= ColdRunBefore(temps, b))
    && (forall c :: 0 <= c < b && EndsSpell(temps, c) ==> ColdRunBefore(temps, c) < ColdRunBefore(temps, b))
  }

  // ---------------------------------------------------------------------------------------
  // The scan, one day at a time

  /** One iteration of the loop, on day `i`: the flag records whether day `i` froze, and
      the record only ever grows, on a thawing day that ends a spell, when it takes the
      length of that spell and the date of the day before. */
  function Step(s: FreezeState, dates: seq<string>, temps: seq<int>, i: nat): (r: FreezeState)
    requires i < |dates| && i < |temps|
    requires s.wasFreezing ==> i > 0
    ensures r.wasFreezing <==> temps[i] < 0
    ensures s.longest <= r.longest
    ensures r.longest != s.longest ==> s.wasFreezing && temps[i] >= 0 && r.longest == s.run && r.lastDay == dates[i - 1]
    ensures r.longest == s.longest ==> r.lastDay == s.lastDay
  {
    if temps[i] < 0 then
      if s.wasFreezing then s.(run := s.run + 1) else s.(wasFreezing := true, run := 1)
    else if s.wasFreezing then
      if s.run > s.longest then FreezeState(false, s.run, s.run, dates[i - 1])
      else s.(wasFreezing := false)
    else s
  }

  /** The loop variables after the first `m` days. */
  function Scan(dates: seq<string>, temps: seq<int>, m: nat): (s: FreezeState)
    requires m <= |dates| && m <= |temps|
    ensures s.wasFreezing <==> m > 0 && temps[m - 1] < 0
    decreases m
  {
    if m == 0 then Start else Step(Scan(dates, temps, m - 1), dates, temps, m - 1)
  }

  /**
   * What the loop variables `s` mean after `m` days: during a spell, the counter is that
   * spell's length so far; the record is zero exactly when no spell has ended yet, and
   * otherwise it is the length and last day of the record spell `b`.
   */
  ghost predicate Describes(dates: seq<string>, temps: seq<int>, m: nat, s: FreezeState, b: nat)
    requires m <= |dates| && m <= |temps|
  {
    && (s.wasFreezing ==> s.run == ColdRunBefore(temps, m))
    && (s.longest == 0 <==> forall c :: 0 <= c < m ==> !EndsSpell(temps, c))
    && (s.longest == 0 ==> s.lastDay == "")
    && (s.longest > 0 ==> IsRecordSpell(temps, m, b) && s.longest == ColdRunBefore(temps, b) && s.lastDay == dates[b - 1])
  }

  /** A freezing day extends (or starts) the current spell and ends none. */
  lemma FrostStepKeeps(dates: seq<string>, temps: seq<int>, i: nat, s: FreezeState, b: nat)
    requires i < |dates| && i < |temps| && temps[i] < 0
    requires s.wasFreezing <==> i > 0 && temps[i - 1] < 0
    requires Describes(dates, temps, i, s, b)
    ensures Describes(dates, temps, i + 1, Step(s, dates, temps, i), b)
  {
    assert !EndsSpell(temps, i);
    assert ColdRunBefore(temps, i + 1) == 1 + ColdRunBefore(temps, i);
    if s.longest > 0 {
      assert IsRecordSpell(temps, i + 1, b);
    }
  }

  /** A thawing day that does not follow a freezing day changes nothing. */
  lemma QuietStepKeeps(dates: seq<string>, temps: seq<int>, i: nat, s: FreezeState, b: nat)
    requires i < |dates| && i < |temps| && temps[i] >= 0
    requires !s.wasFreezing && (i == 0 || temps[i - 1] >= 0)
    requires Describes(dates, temps, i, s, b)
    ensures Describes(dates, temps, i + 1, Step(s, dates, temps, i), b)
  {
    assert !EndsSpell(temps, i);
    if s.longest > 0 {
      assert IsRecordSpell(temps, i + 1, b);
    }
  }

  /** A thawing day right after a spell that beats the record makes that spell the record. */
  lemma RecordStepKeeps(dates: seq<string>, temps: seq<int>, i: nat, s: FreezeState, b: nat)
    requires i < |dates| && i < |temps| && temps[i] >= 0
    requires s.wasFreezing && i > 0 && temps[i - 1] < 0 && s.run > s.longest
    requires Describes(dates, temps, i, s, b)
    ensures Describes(dates, temps, i + 1, Step(s, dates, temps, i), i)
  {
    assert EndsSpell(temps, i);
    assert forall c :: 0 <= c < i && EndsSpell(temps, c) ==> ColdRunBefore(temps, c) < ColdRunBefore(temps, i);
  }

  /** A thawing day right after a spell no longer than the record keeps the record. */
  lemma ShortStepKeeps(dates: seq<string>, temps: seq<int>, i: nat, s: FreezeState, b: nat)
    requires i < |dates| && i < |temps| && temps[i] >= 0
    requires s.wasFreezing && i > 0 && temps[i - 1] < 0 && s.run <= s.longest
    requires Describes(dates, temps, i, s, b)
    ensures Describes(dates, temps, i + 1, Step(s, dates, temps, i), b)
  {
    assert EndsSpell(temps, i);
    assert IsRecordSpell(temps, i + 1, b);
  }

  /** The loop variables always mean what `Describes` says, for some record spell `b`. */
  lemma {:induction false} ScanInvariant(dates: seq<string>, temps: seq<int>, m: nat) returns (b: nat)
    requires m <= |dates| && m <= |temps|
    ensures Describes(dates, temps, m, Scan(dates, temps, m), b)
    decreases m
  {
    if m == 0 {
      b := 0;
    } else {
      var i := m - 1;
      var b0 := ScanInvariant(dates, temps, i);
      var s := Scan(dates, temps, i);
      assert Scan(dates, temps, m) == Step(s, dates, temps, i);
      if temps[i] < 0 {
        FrostStepKeeps(dates, temps, i, s, b0);
        b := b0;
      } else if !s.wasFreezing {
        QuietStepKeeps(dates, temps, i, s, b0);
        b := b0;
      } else if s.run > s.longest {
        RecordStepKeeps(dates, temps, i, s, b0);
        b := i;
      } else {
        ShortStepKeeps(dates, temps, i, s, b0);
        b := b0;
      }
    }
  }

  /** `ScanInvariant` with the record spell quantified rather than returned. */
  lemma ScanMeaning(dates: seq<string>, temps: seq<int>, m: nat)
    requires m <= |dates| && m <= |temps|
    ensures var s := Scan(dates, temps, m);
      && (s.longest == 0 <==> forall c :: 0 <= c < m ==> !EndsSpell(temps, c))
      && (s.longest == 0 ==> s.lastDay == "")
      && (s.longest > 0 ==> exists b :: IsRecordSpell(temps, m, b) && s.longest == ColdRunBefore(temps, b) && s.lastDay == dates[b - 1])
  {
    var b := ScanInvariant(dates, temps, m);
  }

  // ---------------------------------------------------------------------------------------
  // `get_longest_freezing`

  /**
   * The longest freezing spell that ended within the series, as its length and the date of
   * its last day. Reading a temperature past the end of the list fails; a series in which
   * no spell ended gives `(0, "")`.
   */
  function LongestFreezing(dates: seq<string>, temps: seq<int>): (r: Result<FreezingPeriod, IndexError>)
    ensures r.Err? <==> |temps| < |dates|
    ensures r.Ok? ==> (r.value.days == 0 <==> forall c :: 0 <= c < |dates| ==> !EndsSpell(temps, c))
    ensures r.Ok? && r.value.days == 0 ==> r.value.lastDay == ""
    ensures r.Ok? && r.value.days > 0 ==> exists b ::
      IsRecordSpell(temps, |dates|, b) && r.value.days == ColdRunBefore(temps, b) && r.value.lastDay == dates[b - 1]
  {
    if |temps| < |dates| then Err(IndexOutOfRange)
    else
      ScanMeaning(dates, temps, |dates|);
      var s := Scan(dates, temps, |dates|);
      Ok(FreezingPeriod(s.longest, s.lastDay))
  }

  /** The loop of `get_longest_freezing`. */
  method GetLongestFreezing(maxDates: seq<string>, maxTemps: seq<int>) returns (r: Result<FreezingPeriod, IndexError>)
    ensures r == LongestFreezing(maxDates, maxTemps)
  {
    var uninterruptedPeriod := 0;
    var longestUninterruptedPeriod := 0;
    var lastDay := "";
    var wasFreezing := false;
    for i := 0 to |maxDates|
      invariant i <= |maxTemps|
      invariant Scan(maxDates, maxTemps, i) == FreezeState(wasFreezing, uninterruptedPeriod, longestUninterruptedPeriod, lastDay)
    {
      if i >= |maxTemps| {
        return Err(IndexOutOfRange);
      }
      if maxTemps[i] < 0 {
        if wasFreezing {
          uninterruptedPeriod := uninterruptedPeriod + 1;
        } else {
          wasFreezing := true;
          uninterruptedPeriod := 1;
        }
      } else if wasFreezing {
        if uninterruptedPeriod > longestUninterruptedPeriod {
          longestUninterruptedPeriod := uninterruptedPeriod;
          lastDay := maxDates[i - 1];
        }
        wasFreezing := false;
      }
    }
    return Ok(FreezingPeriod(longestUninterruptedPeriod, lastDay));
  }

  // ---------------------------------------------------------------------------------------
  // Properties

  /** The scan of the first `m` days depends on those days only. */
  lemma {:induction false} ScanPrefix(dates: seq<string>, temps: seq<int>, dates2: seq<string>, temps2: seq<int>, m: nat)
    requires m <= |dates| && m <= |temps| && m <= |dates2| && m <= |temps2|
    requires forall j :: 0 <= j < m ==> dates[j] == dates2[j] && temps[j] == temps2[j]
    ensures Scan(dates, temps, m) == Scan(dates2, temps2, m)
    decreases m
  {
    if m > 0 {
      ScanPrefix(dates, temps, dates2, temps2, m - 1);
    }
  }

  /**
   * A freezing day added at the end of a series never changes the result: the spell it
   * belongs to has not ended within the series.
   */
  lemma TrailingFrostIgnored(dates: seq<string>, temps: seq<int>, day: string, temp: int)
    requires |dates| == |temps| && temp < 0
    ensures LongestFreezing(dates + [day], temps + [temp]) == LongestFreezing(dates, temps)
  {
    var m := |dates|;
    ScanPrefix(dates + [day], temps + [temp], dates, temps, m);
  }

  /** A series in which every day freezes has no ended spell, so its result is `(0, "")`. */
  lemma AllFreezingGivesNothing(dates: seq<string>, temps: seq<int>)
    requires |dates| == |temps|
    requires forall j :: 0 <= j < |temps| ==> temps[j] < 0
    ensures LongestFreezing(dates, temps) == Ok(FreezingPeriod(0, ""))
  {
    var r := LongestFreezing(dates, temps);
    assert forall c :: 0 <= c < |dates| ==> !EndsSpell(temps, c);
  }

  /** The example in the documentation of `get_longest_freezing`, in tenths of a degree. */
  lemma FreezingExample()
    ensures LongestFreezing(["19010107", "19010108", "19010109"], [-66, -6, 42]) == Ok(FreezingPeriod(2, "19010108"))
  {
    var dates := ["19010107", "19010108", "19010109"];
    var temps := [-66, -6, 42];
    assert Scan(dates, temps, 1) == FreezeState(true, 1, 0, "");
    assert Scan(dates, temps, 2) == FreezeState(true, 2, 0, "");
    assert Scan(dates, temps, 3) == FreezeState(false, 2, 2, "19010108");
  }

  /** The longest spell is at most as long as the series minus the day that ended it. */
  lemma LongestBound(dates: seq<string>, temps: seq<int>)
    requires |dates| <= |temps|
    ensures LongestFreezing(dates, temps).Ok?
    ensures LongestFreezing(dates, temps).value.days < |dates| || |dates| == 0
  {
    var r := LongestFreezing(dates, temps);
    if r.value.days > 0 {
      var b :| IsRecordSpell(temps, |dates|, b) && r.value.days == ColdRunBefore(temps, b) && r.value.lastDay == dates[b - 1];
    }
  }
}
