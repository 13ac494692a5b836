/**
 * The calendar date the formatter reads. The calendar module that computes these
 * values is not part of this model: a date is only the five readings the
 * formatter takes from it.
 */
module Local {

  datatype Month =
    | January | February | March | April | May | June
    | July | August | September | October | November | December

  datatype Weekday = Monday | Tuesday | Wednesday | Thursday | Friday | Saturday | Sunday

  /**
   * What `year()`, `year_of_century()`, `month()`, `day()` and `weekday()` return
   * for one date. No relation between the fields is assumed (the calendar code
   * that would guarantee one is not modelled).
   */
  datatype LocalDate = LocalDate(
    year: int,
    yearOfCentury: int,
    month: Month,
    day: int,
    weekday: Weekday)
}
