/** Calendar dates as (year, month, day) triples, compared like java.time.LocalDate. */
module Dates {

  type Month = m: int | 1 <= m <= 12 witness 1
  type Day = d: int | 1 <= d <= 31 witness 1

  datatype Date = Date(year: int, month: Month, day: Day)

  /** LocalDate.isBefore: strictly earlier, lexicographically on (year, month, day). */
  predicate Before(a: Date, b: Date): (r: bool)
    ensures a == b ==> !r
    ensures a.year < b.year ==> r
    ensures r ==> a.year <= b.year
  {
    a.year < b.year ||
    (a.year == b.year && (a.month < b.month || (a.month == b.month && a.day < b.day)))
  }

  /** A day number that orders dates the way Before does (31 slots per month). */
  function Ordinal(d: Date): int {
    d.year * 372 + (d.month - 1) * 31 + (d.day - 1)
  }

  /** Ordinal is an order embedding of Before into the integers. */
  lemma OrdinalOrder(a: Date, b: Date)
    ensures Before(a, b) <==> Ordinal(a) < Ordinal(b)
  {
  }
}
