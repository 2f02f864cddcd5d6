/**
 * Calendar dates and the orderings the queries use: Django's `DateField`
 * compares by (year, month, day), and `order_by('session_date', 'start_time')`
 * compares by the date and then by the time of day.
 */
module Calendar {

  datatype Date = Date(year: int, month: int, day: int)

  /** Python's `(a.month, a.day) < (b.month, b.day)`. */
  predicate MonthDayBefore(a: Date, b: Date) {
    a.month < b.month || (a.month == b.month && a.day < b.day)
  }

  /** Strictly earlier calendar date. */
  predicate DateBefore(a: Date, b: Date) {
    a.year < b.year || (a.year == b.year && MonthDayBefore(a, b))
  }

  predicate DateOnOrBefore(a: Date, b: Date) {
    a == b || DateBefore(a, b)
  }

  /** The (date, time of day) order of `order_by('session_date', 'start_time')`; times are seconds since midnight. */
  predicate SlotBefore(d1: Date, t1: int, d2: Date, t2: int) {
    DateBefore(d1, d2) || (d1 == d2 && t1 < t2)
  }

  lemma DateBeforeTrichotomy(a: Date, b: Date)
    ensures DateBefore(a, b) || a == b || DateBefore(b, a)
    ensures !(DateBefore(a, b) && DateBefore(b, a))
  {
  }
}
