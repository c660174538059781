/** Calendar days as the integers yyyymmdd (so 2024-01-05 is 20240105);
    on valid days the integer order is the chronological order. A missing
    date (pandas' NaT) is `None`. */
module Dates {
  import opened Wrappers

  function Year(d: int): int {
    d / 10000
  }

  function Month(d: int): int {
    (d / 100) % 100
  }

  function DayOfMonth(d: int): int {
    d % 100
  }

  /** `Timestamp.quarter`: months 1-3 are quarter 1, and so on. */
  function Quarter(d: int): int {
    (Month(d) - 1) / 3 + 1
  }

  predicate IsLeapYear(y: int) {
    (y % 4 == 0 && y % 100 != 0) || y % 400 == 0
  }

  function DaysInMonth(y: int, m: int): int {
    if m == 2 then (if IsLeapYear(y) then 29 else 28)
    else if m == 4 || m == 6 || m == 9 || m == 11 then 30
    else 31
  }

  /** The first and last calendar days inside pandas' nanosecond Timestamp
      range (1677-09-21 00:12:43 to 2262-04-11 23:47:16); a day outside it
      is out of bounds, which `errors='coerce'` also turns into NaT. */
  const MinYmd := 16770922
  const MaxYmd := 22620411

  /** An eight-digit yyyymmdd integer naming a real calendar day that pandas
      can represent. */
  predicate IsYmd(d: int) {
    MinYmd <= d <= MaxYmd && 1 <= Month(d) <= 12 && 1 <= DayOfMonth(d) <= DaysInMonth(Year(d), Month(d))
  }

  /** `pd.to_datetime(raw, format='%Y%m%d', errors='coerce')`: a raw value
      that is not a valid day becomes NaT. */
  function ParseYmd(raw: Option<int>): (r: Option<int>)
    ensures r.Some? ==> IsYmd(r.value)
    ensures r.Some? ==> r == raw
    ensures raw.Some? && IsYmd(raw.value) ==> r == raw
  {
    if raw.Some? && IsYmd(raw.value) then raw else None
  }

  /** pandas' `date > cutoff`: a missing date is never after anything. */
  predicate After(d: Option<int>, cutoff: int) {
    d.Some? && d.value > cutoff
  }

  lemma QuarterRange(d: int)
    requires IsYmd(d)
    ensures 1 <= Quarter(d) <= 4
  {
  }
}
