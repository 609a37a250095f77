/** Days of the proleptic Gregorian calendar, the calendar of JavaScript's `Date`,
    counted as integers: day 0 is 1 January of year 1. */
module Calendar {

  predicate IsLeapYear(year: int) {
    year % 4 == 0 && (year % 100 != 0 || year % 400 == 0)
  }

  /** The day number of 1 January of `year`. */
  function JanFirst(year: int): int
    requires year >= 1
  {
    var y := year - 1;
    365 * y + y / 4 - y / 100 + y / 400
  }

  /** `Date.prototype.getDay`: Sunday is 0. Day 0 was a Monday. */
  function Weekday(day: int): (w: nat)
    ensures w < 7
  {
    (day + 1) % 7
  }

  /** Consecutive days have consecutive weekdays, Saturday wrapping to Sunday. */
  lemma WeekdayNext(day: int)
    ensures Weekday(day + 1) == if Weekday(day) == 6 then 0 else Weekday(day) + 1
  {
  }

  /** Going from `n - 1` to `n`, `n / m` steps up by one exactly at multiples of
      `m`, for the three moduli of the leap-year rule. */
  lemma QuotientStep(n: int, m: int)
    requires m == 4 || m == 100 || m == 400
    ensures n / m - (n - 1) / m == if n % m == 0 then 1 else 0
  {
  }

  lemma Divisibility(year: int)
    ensures year % 400 == 0 ==> year % 100 == 0
    ensures year % 100 == 0 ==> year % 4 == 0
  {
    var t := year / 400;
    assert year == 400 * t + year % 400;
    var h := year / 100;
    assert year == 100 * h + year % 100;
    if year % 400 == 0 {
      assert year == 100 * (4 * t) + 0;
    }
    if year % 100 == 0 {
      assert year == 4 * (25 * h) + 0;
    }
  }

  /** A year has 366 days when it is a leap year and 365 otherwise. */
  lemma YearLength(year: int)
    requires year >= 1
    ensures JanFirst(year + 1) - JanFirst(year) == if IsLeapYear(year) then 366 else 365
  {
    QuotientStep(year, 4);
    QuotientStep(year, 100);
    QuotientStep(year, 400);
    Divisibility(year);
    var four := if year % 4 == 0 then 1 else 0;
    var hundred := if year % 100 == 0 then 1 else 0;
    var fourHundred := if year % 400 == 0 then 1 else 0;
    assert JanFirst(year + 1) - JanFirst(year) == 365 + four - hundred + fourHundred;
  }

  /** 1 January 1970, day 0 of JavaScript's clock, was a Thursday. */
  lemma UnixEpochWasThursday()
    ensures Weekday(JanFirst(1970)) == 4
  {
  }
}
