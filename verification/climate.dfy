/**
 * The data the analysis works on. A temperature is an integer number of tenths of a
 * degree Celsius, as stored in the ECA&D file; the Python code divides by ten on reading,
 * but only ever compares temperatures with each other and with zero, and those
 * comparisons give the same answers on the tenths.
 */
module Climate {

  /** One day's reading: the date text as read (`YYYYMMDD` in the data files) and a
      temperature in tenths of a degree. */
  datatype Reading = Reading(date: string, temp: int)

  /** The two parallel lists `read_data` returns: `dates[i]` is the day of `temps[i]`. */
  datatype Series = Series(dates: seq<string>, temps: seq<int>)

  const EmptySeries := Series([], [])

  /** Python's `IndexError: list index out of range`, raised when a list is read past its end. */
  datatype IndexError = IndexOutOfRange

  /** Negates every temperature; turns the coldest day into the warmest one. */
  function Negate(temps: seq<int>): (r: seq<int>)
    ensures |r| == |temps|
    ensures forall k :: 0 <= k < |temps| ==> r[k] == -temps[k]
  {
    seq(|temps|, k requires 0 <= k < |temps| => -temps[k])
  }
}
