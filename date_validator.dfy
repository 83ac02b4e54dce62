/**
 * The checks the handlers make on their parameters before any request goes
 * upstream. A year or month parameter arrives already parsed: None when the
 * source's `isNaN` test rejects it, otherwise Some of what `parseInt(_, 10)`
 * returns. The count parameter has no `isNaN` test: its None means that
 * `parseInt` itself returned NaN.
 */
module DateValidator {
  import opened Wrappers
  import opened Calendar

  datatype Checked<T> = Valid(value: T) | Invalid(message: string)

  const MinYear := 1900
  const MaxYear := 2100
  const DefaultCount := 5

  const YearRequired := "Valid year is required"
  const YearOutOfRange := "Year must be between 1900 and 2100"
  const YearAndMonthRequired := "Valid year and month are required"
  const MonthOutOfRange := "Month must be between 1 and 12"
  const InvalidDateFormat := "Invalid date format. Use YYYY-MM-DD"

  /** The year check of the whole-year query. */
  function CheckYear(year: Option<int>): (r: Checked<int>)
    ensures r.Valid? <==> year.Some? && MinYear <= year.value <= MaxYear
    ensures r.Valid? ==> r.value == year.value
    ensures year.None? ==> r == Invalid(YearRequired)
    ensures year.Some? && !(MinYear <= year.value <= MaxYear) ==> r == Invalid(YearOutOfRange)
  {
    match year
    case None => Invalid(YearRequired)
    case Some(y) => if y < MinYear || y > MaxYear then Invalid(YearOutOfRange) else Valid(y)
  }

  /** The checks of the month query: both numeric, then the year range, then the month range. */
  function CheckYearAndMonth(year: Option<int>, month: Option<int>): (r: Checked<(int, int)>)
    ensures r.Valid? <==>
      year.Some? && month.Some? && MinYear <= year.value <= MaxYear && 1 <= month.value <= 12
    ensures r.Valid? ==> r.value == (year.value, month.value)
    ensures year.None? || month.None? ==> r == Invalid(YearAndMonthRequired)
    ensures year.Some? && month.Some? && !(MinYear <= year.value <= MaxYear) ==> r == Invalid(YearOutOfRange)
    ensures year.Some? && month.Some? && MinYear <= year.value <= MaxYear && !(1 <= month.value <= 12) ==>
      r == Invalid(MonthOutOfRange)
  {
    if year.None? || month.None? then Invalid(YearAndMonthRequired)
    else if year.value < MinYear || year.value > MaxYear then Invalid(YearOutOfRange)
    else if month.value < 1 || month.value > 12 then Invalid(MonthOutOfRange)
    else Valid((year.value, month.value))
  }

  /** The year check of the types query: numeric only, with no range. */
  function CheckTypesYear(year: Option<int>): (r: Checked<int>)
    ensures r.Valid? <==> year.Some?
    ensures r.Valid? ==> r.value == year.value
    ensures year.None? ==> r == Invalid(YearRequired)
  {
    match year
    case None => Invalid(YearRequired)
    case Some(y) => Valid(y)
  }

  /**
   * The date check of the holiday-check query. `parsed` is what the runtime's
   * date parser made of the parameter, in local calendar fields; None is an
   * invalid date.
   */
  function CheckDate(parsed: Option<Date>): (r: Checked<Date>)
    ensures r.Valid? <==> parsed.Some?
    ensures r.Valid? ==> r.value == parsed.value
    ensures parsed.None? ==> r == Invalid(InvalidDateFormat)
  {
    match parsed
    case None => Invalid(InvalidDateFormat)
    case Some(d) => Valid(d)
  }

  /**
   * `parseInt(count, 10) || 5`: NaN and 0 are falsy and give the default. None
   * is NaN: the parameter is absent, or after optional whitespace and an
   * optional sign it does not start with a decimal digit (so "-3" is Some(-3)).
   */
  function UpcomingCount(count: Option<int>): (r: int)
    ensures r != 0
    ensures count.Some? && count.value != 0 ==> r == count.value
    ensures count.None? || count.value == 0 ==> r == DefaultCount
  {
    match count
    case None => DefaultCount
    case Some(n) => if n == 0 then DefaultCount else n
  }
}
