/** LocalDate.toString, ISO LocalDate.parse and the ISO_LOCAL_DATE_TIME text. */
module DateText {
  import opened TimeErrors
  import opened LocalDates
  import opened Decimal
  import opened Spans

  /**
   * The year field of LocalDate.toString: a year below 1000 in magnitude is
   * zero-padded to four digits (keeping its sign), a year above 9999 gets a
   * plus sign.
   */
  function YearText(year: int): (s: string)
    ensures 1 <= |s|
    ensures 0 <= year <= 9999 ==> s == Digits4(year)
    ensures year < 0 ==> s[0] == '-'
    ensures year > 9999 ==> s[0] == '+'
  {
    var absYear := if year < 0 then -year else year;
    if absYear < 1000 then
      if year < 0 then
        var t := IntText(year - 10000); t[..1] + t[2..]   // "-10005" becomes "-0005"
      else
        YearField(year);
        IntText(year + 10000)[1..]                         // "10005" becomes "0005"
    else if year > 9999 then
      "+" + IntText(year)
    else
      if year >= 0 then YearField(year); IntText(year) else IntText(year)
  }

  /** The month or day field of LocalDate.toString, zero-padded to two digits after the dash. */
  function FieldText(n: int): (s: string)
    ensures 1 <= n <= 31 ==> s == ['-'] + Digits2(n)
  {
    if 1 <= n <= 31 then TwoDigitField(n); (if n < 10 then "-0" else "-") + IntText(n)
    else (if n < 10 then "-0" else "-") + IntText(n)
  }

  /**
   * LocalDate.toString: ISO-8601 text. A year 0..9999 gives exactly the ten
   * characters yyyy-MM-dd; other years start with their sign.
   */
  function ToString(d: LocalDate): (s: string)
    ensures 1 <= |s| && s[0] == YearText(d.year)[0]
    ensures 0 <= d.year <= 9999 ==> s == FourDigitYearText(d)
    ensures d.year < 0 ==> s[0] == '-'
    ensures d.year > 9999 ==> s[0] == '+'
  {
    YearText(d.year) + FieldText(d.month) + FieldText(d.day)
  }

  /** yyyy-MM-dd spelt out digit by digit, for a year 0..9999. */
  function FourDigitYearText(d: LocalDate): (s: string)
    requires 0 <= d.year <= 9999
    ensures |s| == 10
  {
    var y, m, n := Digits4(d.year), Digits2(d.month), Digits2(d.day);
    [y[0], y[1], y[2], y[3], '-', m[0], m[1], '-', n[0], n[1]]
  }

  predicate IsLocalDateText(s: string) {
    |s| == 10 && s[4] == '-' && s[7] == '-'
    && IsDigit(s[0]) && IsDigit(s[1]) && IsDigit(s[2]) && IsDigit(s[3])
    && IsDigit(s[5]) && IsDigit(s[6]) && IsDigit(s[8]) && IsDigit(s[9])
  }

  /**
   * LocalDate.parse with ISO_LOCAL_DATE, for dates written with a four-digit
   * year: the fields are read as numbers and then checked by LocalDate.of.
   */
  function Parse(s: string): (r: Result<LocalDate>)
    ensures !IsLocalDateText(s) ==> r == Err(Unparseable)
  {
    if IsLocalDateText(s) then
      var year := DigitValue(s[0]) * 1000 + DigitValue(s[1]) * 100 + DigitValue(s[2]) * 10 + DigitValue(s[3]);
      var month := DigitValue(s[5]) * 10 + DigitValue(s[6]);
      var day := DigitValue(s[8]) * 10 + DigitValue(s[9]);
      Of(year, month, day)
    else
      Err(Unparseable)
  }

  /** Parsing the digits of a date gives the date back. */
  lemma ParseFourDigitYearText(d: LocalDate)
    requires 0 <= d.year <= 9999
    ensures Parse(FourDigitYearText(d)) == Ok(d)
  {
    Digits4Value(d.year);
    Digits2Value(d.month);
    Digits2Value(d.day);
  }

  /** Parsing what toString prints gives the date back, for every year 0..9999. */
  lemma ParseToString(d: LocalDate)
    requires 0 <= d.year <= 9999
    ensures Parse(ToString(d)) == Ok(d)
  {
    ParseFourDigitYearText(d);
  }

  /** Text that parses is exactly the digits of the date it parses to. */
  lemma ParsedTextIsDigits(s: string)
    requires Parse(s).Ok?
    ensures 0 <= Parse(s).value.year <= 9999 && FourDigitYearText(Parse(s).value) == s
  {
    var v := DigitValue(s[5]) * 10 + DigitValue(s[6]);
    var w := DigitValue(s[8]) * 10 + DigitValue(s[9]);
    Digits4Compose(DigitValue(s[0]), DigitValue(s[1]), DigitValue(s[2]), DigitValue(s[3]));
    assert v / 10 == DigitValue(s[5]) && v % 10 == DigitValue(s[6]);
    assert w / 10 == DigitValue(s[8]) && w % 10 == DigitValue(s[9]);
    assert s == [s[0], s[1], s[2], s[3], s[4], s[5], s[6], s[7], s[8], s[9]];
  }

  /** Whatever parses is printed back exactly as it was written: the two are inverse on this text. */
  lemma ToStringParse(s: string)
    requires Parse(s).Ok?
    ensures ToString(Parse(s).value) == s
  {
    ParsedTextIsDigits(s);
  }

  // ---------------------------------------------------------------------------
  // DateTimeFormatter.ISO_LOCAL_DATE_TIME
  // ---------------------------------------------------------------------------

  /** The digits of n, zero-padded on the left to exactly `width` characters; they spell n when it fits. */
  function PaddedDigits(n: nat, width: nat): (s: string)
    ensures |s| == width && AllDigits(s)
    ensures n < Pow10(width) ==> DigitsValue(s) == n
  {
    if width == 0 then []
    else
      var prefix := PaddedDigits(n / 10, width - 1);
      DigitsValueAppend(prefix, n % 10);
      prefix + [DigitChar(n % 10)]
  }

  /** The longest prefix that does not end in '0'. */
  function StripTrailingZeros(s: string): (r: string)
    ensures r <= s
    ensures r == [] || r[|r| - 1] != '0'
    ensures forall i :: |r| <= i < |s| ==> s[i] == '0'
  {
    if s == [] || s[|s| - 1] != '0' then s else StripTrailingZeros(s[..|s| - 1])
  }

  /** For a string of digits, stripping k trailing zeros divides its value by 10^k. */
  lemma {:induction false} StripTrailingZerosValue(s: string)
    requires AllDigits(s)
    ensures var r := StripTrailingZeros(s);
      AllDigits(r) && DigitsValue(r) * Pow10(|s| - |r|) == DigitsValue(s)
  {
    if s != [] && s[|s| - 1] == '0' {
      var s' := s[..|s| - 1];
      var r := StripTrailingZeros(s');
      StripTrailingZerosValue(s');
      assert StripTrailingZeros(s) == r;
      assert DigitsValue(s) == 10 * DigitsValue(s');
      assert Pow10(|s| - |r|) == 10 * Pow10(|s'| - |r|);
      ScaleByTen(DigitsValue(r), Pow10(|s'| - |r|), Pow10(|s| - |r|), DigitsValue(s'), DigitsValue(s));
    }
  }

  /** One digit more on both sides of `v * p == d`. */
  lemma ScaleByTen(v: nat, p: nat, q: nat, d: nat, e: nat)
    requires v * p == d && q == 10 * p && e == 10 * d
    ensures v * q == e
  {
  }

  /**
   * The fraction of second that ISO_LOCAL_TIME prints for a non-zero
   * nano-of-second: nine digits with the trailing zeros removed. Its digits,
   * scaled back to nine places, are the nanoseconds.
   */
  function FractionDigits(nano: int): (f: string)
    requires 0 < nano < 1_000_000_000
    ensures 1 <= |f| <= 9 && AllDigits(f) && f[|f| - 1] != '0'
    ensures DigitsValue(f) * Pow10(9 - |f|) == nano
  {
    var padded := PaddedDigits(nano, 9);
    NanosPerSecond();
    FractionValue(nano, 9, padded, StripTrailingZeros(padded));
    StripTrailingZeros(padded)
  }

  /** Stripping the zeros of a non-zero padded number leaves digits that, scaled back, are the number. */
  lemma FractionValue(nano: nat, width: nat, padded: string, f: string)
    requires 0 < nano < Pow10(width)
    requires padded == PaddedDigits(nano, width) && f == StripTrailingZeros(padded)
    ensures 1 <= |f| <= width && AllDigits(f) && f[|f| - 1] != '0'
    ensures DigitsValue(f) * Pow10(width - |f|) == nano
  {
    PaddedDigitsOfNonZero(nano, width);
    StripTrailingZerosValue(padded);
  }

  lemma NanosPerSecond()
    ensures Pow10(9) == 1_000_000_000
  {
  }

  /**
   * ISO_LOCAL_TIME: HH:mm:ss always (the seconds field is always available on
   * a time), then a decimal point and the fraction of second, only when the
   * nano-of-second is not zero. Each field reads back as the time's own value.
   */
  function TimeText(t: LocalTime): (s: string)
    ensures |s| >= 8 && s[2] == ':' && s[5] == ':'
    ensures IsDigit(s[0]) && IsDigit(s[1]) && DigitValue(s[0]) * 10 + DigitValue(s[1]) == t.hour
    ensures IsDigit(s[3]) && IsDigit(s[4]) && DigitValue(s[3]) * 10 + DigitValue(s[4]) == t.minute
    ensures IsDigit(s[6]) && IsDigit(s[7]) && DigitValue(s[6]) * 10 + DigitValue(s[7]) == t.second
    ensures t.nano == 0 <==> |s| == 8
    ensures t.nano != 0 ==> s[8] == '.' && s[9..] == FractionDigits(t.nano)
  {
    Digits2Value(t.hour);
    Digits2Value(t.minute);
    Digits2Value(t.second);
    var fraction := if t.nano == 0 then "" else "." + FractionDigits(t.nano);
    Digits2(t.hour) + ":" + Digits2(t.minute) + ":" + Digits2(t.second) + fraction
  }

  /** A non-zero number below 10^width has a non-zero padded digit, so stripping zeros leaves something. */
  lemma {:induction false} PaddedDigitsOfNonZero(n: nat, width: nat)
    requires 0 < n < Pow10(width)
    ensures StripTrailingZeros(PaddedDigits(n, width)) != []
  {
    var s := PaddedDigits(n, width);
    if n % 10 == 0 {
      assert width > 1 && 0 < n / 10 < Pow10(width - 1);
      PaddedDigitsOfNonZero(n / 10, width - 1);
      assert s[..|s| - 1] == PaddedDigits(n / 10, width - 1);
    } else {
      assert s[|s| - 1] == DigitChar(n % 10) != '0';
    }
  }

  /**
   * ISO_LOCAL_DATE_TIME: the ISO date, the letter T, the ISO time. For a year
   * 0..9999 the first ten characters parse back to the date.
   */
  function DateTimeText(dt: LocalDateTime): (s: string)
    ensures 0 <= dt.date.year <= 9999 ==>
      |s| >= 19 && Parse(s[..10]) == Ok(dt.date) && s[10] == 'T' && s[11..] == TimeText(dt.time)
  {
    var s := ToString(dt.date) + "T" + TimeText(dt.time);
    assert 0 <= dt.date.year <= 9999 ==> Parse(s[..10]) == Ok(dt.date) by {
      if 0 <= dt.date.year <= 9999 {
        ParseToString(dt.date);
        assert s[..10] == ToString(dt.date);
      }
    }
    s
  }
}
