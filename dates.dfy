/**
 * Calendar dates as the script compares them: a `datetime.date` is ordered by
 * year, then month, then day.
 */
module Dates {

  datatype Date = Date(year: int, month: int, day: int)

  /** `a <= b` on dates: lexicographic on (year, month, day). */
  predicate OnOrBefore(a: Date, b: Date)
  {
    a.year < b.year
    || (a.year == b.year && a.month < b.month)
    || (a.year == b.year && a.month == b.month && a.day <= b.day)
  }

  /** The comparison is a total order on dates; in particular the cutoff itself is on or before the cutoff. */
  lemma OnOrBeforeTotalOrder(a: Date, b: Date, c: Date)
    ensures OnOrBefore(a, a)
    ensures OnOrBefore(a, b) || OnOrBefore(b, a)
    ensures OnOrBefore(a, b) && OnOrBefore(b, a) ==> a == b
    ensures OnOrBefore(a, b) && OnOrBefore(b, c) ==> OnOrBefore(a, c)
  {
  }
}
