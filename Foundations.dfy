/** Integer operators as Java evaluates them and the error values of java.time. */
module JavaMath {
  /** Java's `/` on integers: the quotient truncated toward zero. */
  function JavaDiv(a: int, b: int): (q: int)
    requires b > 0
    ensures a >= 0 ==> q * b <= a < q * b + b
    ensures a < 0 ==> q * b - b < a <= q * b
  {
    if a >= 0 then a / b else -((-a) / b)
  }

  /** Java's `%` on integers: the remainder takes the sign of the dividend. */
  function JavaRem(a: int, b: int): (r: int)
    requires b > 0
    ensures a == JavaDiv(a, b) * b + r
    ensures a >= 0 ==> 0 <= r < b
    ensures a < 0 ==> -b < r <= 0
  {
    if a >= 0 then a % b else -((-a) % b)
  }
}

module TimeErrors {
  /** The reasons for which java.time throws a DateTimeException in the modelled operations. */
  datatype DateTimeError =
    | MonthOutOfRange       // month-of-year outside 1..12
    | DayOutOfRange         // day-of-month outside 1..31
    | DayBeyondMonthLength  // e.g. February 31: the day does not exist in that month
    | HourOutOfRange        // hour-of-day outside 0..23
    | MinuteOutOfRange      // minute-of-hour outside 0..59
    | Unparseable           // text that is not of the form yyyy-MM-dd

  /** The value of an operation that may throw a DateTimeException. */
  datatype Result<+T> = Ok(value: T) | Err(error: DateTimeError)
}
