/**
 * Reading editions by day or by month (`getMedia`): which query parameter
 * wins, how each is validated, and the time range each one selects. A day
 * range starts at UTC midnight of the given date; a month range is counted
 * in whole calendar months with the month index carried into the year, as
 * `new Date(year, monthIndex, 1)` does.
 */
module MediaQuery {
  import opened Wrappers
  import opened JsString
  import opened CreateEdition

  /** Every rejection of a query; each is answered with status 400. */
  datatype QueryError = BadDay | BadMonth | NoQuery

  function QueryMessage(e: QueryError): (m: string)
    ensures m != ""
  {
    match e
    case BadDay => "Invalid or missing 'date' parameter. Use format YYYY-MM-DD."
    case BadMonth => "invalid month format"
    case NoQuery => "Provide 'date' (YYYY-MM-DD) or 'month' (YYYY-MM)"
  }

  /** `/^\d{4}-\d{2}-\d{2}$/.test(s)` */
  predicate DayShape(s: string) {
    |s| == 10 && s[4] == '-' && s[7] == '-'
    && AllDigits(s[..4]) && AllDigits(s[5..7]) && AllDigits(s[8..])
  }

  /**
   * A month as `new Date` builds its first day: `month` is the month index
   * 0..11 and `year` the full year.
   */
  datatype MonthStart = MonthStart(year: int, month: int)

  /** The running number of a month, counting from January of year 0. */
  function MonthNumber(m: MonthStart): int {
    m.year * 12 + m.month
  }

  /** `new Date(y, ...)` reads a year from 0 to 99 as 1900 to 1999. */
  function FullYear(y: int): (r: int)
    ensures r >= 1900 || r == y
  {
    if 0 <= y <= 99 then 1900 + y else y
  }

  /**
   * `new Date(year, monthIndex, 1)`: a month index outside 0..11 carries whole
   * years into (or out of) the year.
   */
  function FirstOfMonth(year: int, monthIndex: int): (m: MonthStart)
    ensures 0 <= m.month < 12
    ensures MonthNumber(m) == FullYear(year) * 12 + monthIndex
  {
    MonthStart(FullYear(year) + monthIndex / 12, monthIndex % 12)
  }

  /**
   * `month.split("-").map(Number)` destructured into `[year, mm]` and checked
   * with `!year || !mm`: a missing second piece, `NaN` and 0 are all rejected.
   */
  function MonthFields(month: string): (r: Option<(int, int)>)
    ensures r.Some? ==> r.value.0 != 0 && r.value.1 != 0
  {
    var parts := Split(month, '-');
    var year := JsNumber(parts[0]);
    var mm := if |parts| >= 2 then JsNumber(parts[1]) else None;
    if year.None? || year.value == 0 || mm.None? || mm.value == 0 then None
    else Some((year.value, mm.value))
  }

  /**
   * The range a query selects: from `dayStart` (an ISO instant at UTC
   * midnight) for one local day, or from the first day of month `first` up
   * to, not including, the first day of month `next`.
   */
  datatype Range = Day(dayStart: string) | Month(first: MonthStart, next: MonthStart)

  /**
   * `next` is the calendar month right after `first`, both in normal form:
   * December is followed by January of the next year.
   */
  predicate OneMonth(first: MonthStart, next: MonthStart) {
    MonthNumber(next) == MonthNumber(first) + 1
    && 0 <= first.month < 12 && 0 <= next.month < 12
    && (first.month == 11 ==> next == MonthStart(first.year + 1, 0))
    && (first.month < 11 ==> next == MonthStart(first.year, first.month + 1))
  }

  /** `new Date(y, m - 1, 1)` and `new Date(y, m, 1)` are one calendar month apart, for every `m`. */
  lemma NextMonth(year: int, mm: int)
    ensures OneMonth(FirstOfMonth(year, mm - 1), FirstOfMonth(year, mm))
  {
  }

  /** The validation of `getMedia`: `date` is looked at first, then `month`. */
  function MediaRange(date: Option<string>, month: Option<string>): (r: Result<Range, QueryError>)
    ensures Truthy(date) ==> (r.Success? <==> DayShape(date.value))
    ensures Truthy(date) && r.Success? ==> r.value == Day(date.value + "T00:00:00.000Z")
    ensures Truthy(date) && r.Failure? ==> r.error == BadDay
    ensures !Truthy(date) && Truthy(month) ==> (r == Failure(BadMonth) <==> MonthFields(month.value).None?)
    ensures !Truthy(date) && Truthy(month) && MonthFields(month.value).Some? ==>
      var ym := MonthFields(month.value).value;
      r == Success(Month(FirstOfMonth(ym.0, ym.1 - 1), FirstOfMonth(ym.0, ym.1)))
    ensures !Truthy(date) && !Truthy(month) ==> r == Failure(NoQuery)
    ensures r.Success? && r.value.Month? ==> !Truthy(date) && Truthy(month) && OneMonth(r.value.first, r.value.next)
  {
    if Truthy(date) then
      if DayShape(date.value) then Success(Day(date.value + "T00:00:00.000Z"))
      else Failure(BadDay)
    else if Truthy(month) then
      match MonthFields(month.value)
      case None => Failure(BadMonth)
      case Some((year, mm)) =>
        NextMonth(year, mm);
        Success(Month(FirstOfMonth(year, mm - 1), FirstOfMonth(year, mm)))
    else Failure(NoQuery)
  }

  /** A non-empty `date` decides the answer; `month` is then never read. */
  lemma DayWins(date: string, m1: Option<string>, m2: Option<string>)
    requires date != ""
    ensures MediaRange(Some(date), m1) == MediaRange(Some(date), m2)
    ensures MediaRange(Some(date), m1).Failure? ==> MediaRange(Some(date), m1).error == BadDay
  {
  }

  /**
   * A month number from 1 to 12 names that month of the (full) year; 13 is
   * read as January of the following year.
   */
  lemma MonthOfYear(year: int, mm: int)
    requires 1 <= mm <= 13
    ensures mm <= 12 ==> FirstOfMonth(year, mm - 1) == MonthStart(FullYear(year), mm - 1)
    ensures mm == 13 ==> FirstOfMonth(year, mm - 1) == MonthStart(FullYear(year) + 1, 0)
  {
  }

  /** Two non-zero digit strings joined with `-` are read as that year and month number. */
  lemma MonthFieldsOfDigits(y: string, m: string)
    requires y != [] && AllDigits(y) && DecimalValue(y) != 0
    requires m != [] && AllDigits(m) && DecimalValue(m) != 0
    ensures MonthFields(y + "-" + m) == Some((DecimalValue(y) as int, DecimalValue(m) as int))
  {
    assert '-' !in y by {
      assert forall i :: 0 <= i < |y| ==> IsDigit(y[i]);
    }
    assert '-' !in m by {
      assert forall i :: 0 <= i < |m| ==> IsDigit(m[i]);
    }
    SplitAt(y, '-', m);
    SplitNone(m, '-');
    NumberOfDigits(y);
    NumberOfDigits(m);
  }

  /**
   * The round trip with the `YYYY-MM` format: a year written out in digits
   * and a month from 1 to 12 padded to two digits are read back as
   * themselves.
   */
  lemma MonthQueryOfFormat(year: nat, mm: nat)
    requires year >= 1 && 1 <= mm <= 12
    ensures MonthFields(NatToString(year) + "-" + PadStart2(NatToString(mm))) == Some((year as int, mm as int))
  {
    var m := PadStart2(NatToString(mm));
    assert AllDigits(m) && DecimalValue(m) == mm by {
      if mm < 10 {
        assert m == "0" + NatToString(mm);
        assert m[..|m| - 1] == "0";
      }
    }
    MonthFieldsOfDigits(NatToString(year), m);
  }

  /** A month query whose two numbers are read selects the month they name and the one after it. */
  lemma MonthRangeOfFields(month: string, year: int, mm: int)
    requires month != "" && MonthFields(month) == Some((year, mm))
    ensures MediaRange(None, Some(month)) == Success(Month(FirstOfMonth(year, mm - 1), FirstOfMonth(year, mm)))
  {
  }

  /**
   * Pieces of digits joined with `-` pass the day check exactly when they
   * are four, two and two digits long.
   */
  lemma DayShapeOfParts(y: string, m: string, d: string)
    requires AllDigits(y) && AllDigits(m) && AllDigits(d)
    ensures DayShape(y + "-" + m + "-" + d) <==> |y| == 4 && |m| == 2 && |d| == 2
  {
    var s := y + "-" + m + "-" + d;
    if |y| == 4 && |m| == 2 && |d| == 2 {
      assert s[..4] == y && s[5..7] == m && s[8..] == d;
    }
  }

  /** Concrete months: December carrying into January, and a two-digit year. */
  lemma CalendarExamples()
    ensures FirstOfMonth(2024, 11) == MonthStart(2024, 11) && FirstOfMonth(2024, 12) == MonthStart(2025, 0)
    ensures FirstOfMonth(24, 12) == MonthStart(1925, 0)
  {
  }

}
