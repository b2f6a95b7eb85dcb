/** Gregorian calendar dates and the two date formats the repository parses
    with Python's `datetime.strptime`: `%d/%m/%Y` (the strict check on table
    dates) and `%Y-%m-%d` (the dates handed to the report URL).

    `strptime` turns each directive into a regular-expression alternation and
    takes the FIRST match its backtracking finds; text left over after that
    match is an error ("unconverted data remains"), and so is a day the month
    does not have. The alternations, in CPython's order, are
      %d: 3[01] | [12]\d | 0[1-9] | [1-9] | ' '[1-9]
      %m: 1[0-2] | 0[1-9] | [1-9]
      %Y: \d\d\d\d
    so `strptime` also accepts one-digit days and months ("2025-1-5"). */
module Calendar {
  import opened TextUtil

  datatype Date = Date(year: nat, month: nat, day: nat)

  /** Gregorian leap-year rule. */
  predicate IsLeapYear(y: nat)
  {
    y % 4 == 0 && (y % 100 != 0 || y % 400 == 0)
  }

  /** `calendar.monthrange(y, m)[1]`: the number of days of month `m`. */
  function DaysInMonth(y: nat, m: nat): (n: nat)
    requires 1 <= m <= 12
    ensures 28 <= n <= 31
  {
    if m == 2 then (if IsLeapYear(y) then 29 else 28)
    else if m == 4 || m == 6 || m == 9 || m == 11 then 30
    else 31
  }

  function MonthLengthsFrom(y: nat, m: nat): nat
    requires 1 <= m <= 13
    decreases 13 - m
  {
    if m == 13 then 0 else DaysInMonth(y, m) + MonthLengthsFrom(y, m + 1)
  }

  /** The twelve month lengths add up to the length of the year. */
  lemma YearLength(y: nat)
    ensures MonthLengthsFrom(y, 1) == if IsLeapYear(y) then 366 else 365
  {
  }

  /** A day that Python's `datetime` accepts (years 1 to 9999). */
  predicate IsValid(d: Date)
  {
    1 <= d.year <= 9999 && 1 <= d.month <= 12 && 1 <= d.day <= DaysInMonth(d.year, d.month)
  }

  // ---------------------------------------------------------------------
  // Fixed-width numerals, as `strftime` and `{:02d}` / `{:04d}` write them
  // ---------------------------------------------------------------------

  function TwoDigits(n: nat): (r: string)
    requires n < 100
    ensures |r| == 2 && AllDigits(r)
    ensures 10 * DigitValue(r[0]) + DigitValue(r[1]) == n
  {
    [DigitChar(n / 10), DigitChar(n % 10)]
  }

  function FourDigits(n: nat): (r: string)
    requires n < 10000
    ensures |r| == 4 && AllDigits(r)
    ensures 1000 * DigitValue(r[0]) + 100 * DigitValue(r[1]) + 10 * DigitValue(r[2]) + DigitValue(r[3]) == n
  {
    var hi := TwoDigits(n / 100);
    var lo := TwoDigits(n % 100);
    assert 10 * DigitValue(hi[0]) + DigitValue(hi[1]) == n / 100;
    assert 10 * DigitValue(lo[0]) + DigitValue(lo[1]) == n % 100;
    hi + lo
  }

  /** `strftime('%d/%m/%Y')`. */
  function FormatDmy(d: Date): string
    requires IsValid(d)
  {
    TwoDigits(d.day) + "/" + TwoDigits(d.month) + "/" + FourDigits(d.year)
  }

  /** `f"{year:04d}-{month:02d}-{day:02d}"` (the ISO 8601 calendar date,
      extended format). */
  function FormatYmd(d: Date): string
    requires IsValid(d)
  {
    FourDigits(d.year) + "-" + TwoDigits(d.month) + "-" + TwoDigits(d.day)
  }

  // ---------------------------------------------------------------------
  // strptime directives
  // ---------------------------------------------------------------------

  /** One way a directive's alternation can match: how many characters it
      consumes and the number they denote. */
  datatype Alt = Alt(len: nat, value: nat)

  predicate IsNonZeroDigit(c: char) { '1' <= c <= '9' }

  /** The matches of the `%d` alternation at index `i`, in the order the
      regular-expression engine tries them. */
  function DayAlternatives(s: string, i: nat): (r: seq<Alt>)
    ensures forall k :: 0 <= k < |r| ==> 1 <= r[k].len <= 2 && i + r[k].len <= |s| && 1 <= r[k].value <= 31
  {
    (if i + 1 < |s| && s[i] == '3' && (s[i + 1] == '0' || s[i + 1] == '1')
     then [Alt(2, 30 + DigitValue(s[i + 1]))] else []) +
    (if i + 1 < |s| && (s[i] == '1' || s[i] == '2') && IsDigit(s[i + 1])
     then [Alt(2, 10 * DigitValue(s[i]) + DigitValue(s[i + 1]))] else []) +
    (if i + 1 < |s| && s[i] == '0' && IsNonZeroDigit(s[i + 1])
     then [Alt(2, DigitValue(s[i + 1]))] else []) +
    (if i < |s| && IsNonZeroDigit(s[i]) then [Alt(1, DigitValue(s[i]))] else []) +
    (if i + 1 < |s| && s[i] == ' ' && IsNonZeroDigit(s[i + 1])
     then [Alt(2, DigitValue(s[i + 1]))] else [])
  }

  /** The matches of the `%m` alternation at index `i`, in order. */
  function MonthAlternatives(s: string, i: nat): (r: seq<Alt>)
    ensures forall k :: 0 <= k < |r| ==> 1 <= r[k].len <= 2 && i + r[k].len <= |s| && 1 <= r[k].value <= 12
  {
    (if i + 1 < |s| && s[i] == '1' && '0' <= s[i + 1] <= '2'
     then [Alt(2, 10 + DigitValue(s[i + 1]))] else []) +
    (if i + 1 < |s| && s[i] == '0' && IsNonZeroDigit(s[i + 1])
     then [Alt(2, DigitValue(s[i + 1]))] else []) +
    (if i < |s| && IsNonZeroDigit(s[i]) then [Alt(1, DigitValue(s[i]))] else [])
  }

  /** The `%Y` directive: exactly four digits at index `i`. */
  function YearAt(s: string, i: nat): (r: Option<nat>)
    ensures r.Some? ==> i + 4 <= |s| && r.value < 10000
  {
    if i + 4 <= |s| && IsDigit(s[i]) && IsDigit(s[i + 1]) && IsDigit(s[i + 2]) && IsDigit(s[i + 3])
    then Some(1000 * DigitValue(s[i]) + 100 * DigitValue(s[i + 1]) + 10 * DigitValue(s[i + 2]) + DigitValue(s[i + 3]))
    else None
  }

  // ---------------------------------------------------------------------
  // strptime(s, '%d/%m/%Y')
  // ---------------------------------------------------------------------

  /** First match of `%d/%m/%Y` at the start of `s`: the fields and where
      the match ends. `days` are the day alternatives still to try. */
  function DmyTryDays(s: string, days: seq<Alt>): (r: Option<(Date, nat)>)
    requires forall k :: 0 <= k < |days| ==> days[k].len <= 2 && days[k].len <= |s|
    ensures r.Some? ==> r.value.1 <= |s| && r.value.1 <= 10
    decreases |days|
  {
    if days == [] then None
    else
      var p := days[0].len;
      var here := if p < |s| && s[p] == '/' then DmyTryMonths(s, days[0].value, p + 1, MonthAlternatives(s, p + 1)) else None;
      if here.Some? then here else DmyTryDays(s, days[1..])
  }

  function DmyTryMonths(s: string, day: nat, q: nat, months: seq<Alt>): (r: Option<(Date, nat)>)
    requires q <= 3
    requires forall k :: 0 <= k < |months| ==> months[k].len <= 2 && q + months[k].len <= |s|
    ensures r.Some? ==> r.value.1 <= |s| && r.value.1 <= 10
    decreases |months|
  {
    if months == [] then None
    else
      var p := q + months[0].len;
      if p < |s| && s[p] == '/' && YearAt(s, p + 1).Some?
      then Some((Date(YearAt(s, p + 1).value, months[0].value, day), p + 5))
      else DmyTryMonths(s, day, q, months[1..])
  }

  /** `datetime.strptime(s, '%d/%m/%Y')`: the date, or None where Python
      raises ValueError. */
  function ParseDmy(s: string): Option<Date>
  {
    match DmyTryDays(s, DayAlternatives(s, 0))
    case None => None
    case Some((d, end)) => if end == |s| && IsValid(d) then Some(d) else None
  }

  // ---------------------------------------------------------------------
  // strptime(s, '%Y-%m-%d')
  // ---------------------------------------------------------------------

  function YmdTryMonths(s: string, year: nat, months: seq<Alt>): (r: Option<(Date, nat)>)
    requires forall k :: 0 <= k < |months| ==> 5 + months[k].len <= |s|
    ensures r.Some? ==> r.value.1 <= |s|
    decreases |months|
  {
    if months == [] then None
    else
      var p := 5 + months[0].len;
      var days := if p < |s| && s[p] == '-' then DayAlternatives(s, p + 1) else [];
      if days != [] then Some((Date(year, months[0].value, days[0].value), p + 1 + days[0].len))
      else YmdTryMonths(s, year, months[1..])
  }

  /** `datetime.strptime(s, '%Y-%m-%d')`: the date, or None where Python
      raises ValueError. */
  function ParseYmd(s: string): Option<Date>
  {
    if YearAt(s, 0).Some? && 4 < |s| && s[4] == '-' then
      match YmdTryMonths(s, YearAt(s, 0).value, MonthAlternatives(s, 5))
      case None => None
      case Some((d, end)) => if end == |s| && IsValid(d) then Some(d) else None
    else None
  }

  // ---------------------------------------------------------------------
  // What the two parsers accept
  // ---------------------------------------------------------------------

  /** `s` has the shape DD/MM/YYYY with ASCII digits. */
  predicate DmyShape(s: string)
  {
    |s| == 10 && s[2] == '/' && s[5] == '/' &&
    IsDigit(s[0]) && IsDigit(s[1]) && IsDigit(s[3]) && IsDigit(s[4]) &&
    IsDigit(s[6]) && IsDigit(s[7]) && IsDigit(s[8]) && IsDigit(s[9])
  }

  /** The date a DD/MM/YYYY string spells, digit by digit. */
  function DmyFields(s: string): Date
    requires DmyShape(s)
  {
    Date(YearAt(s, 6).value,
         10 * DigitValue(s[3]) + DigitValue(s[4]),
         10 * DigitValue(s[0]) + DigitValue(s[1]))
  }

  lemma DmyMonthStep(s: string, day: nat)
    requires DmyShape(s)
    ensures var m := 10 * DigitValue(s[3]) + DigitValue(s[4]);
      DmyTryMonths(s, day, 3, MonthAlternatives(s, 3)) ==
        if 1 <= m <= 12 then Some((Date(YearAt(s, 6).value, m, day), 10)) else None
  {
    var ms := MonthAlternatives(s, 3);
    var m := 10 * DigitValue(s[3]) + DigitValue(s[4]);
    if s[3] == '1' && '0' <= s[4] <= '2' {
      assert ms[0] == Alt(2, m);
    } else if s[3] == '0' && IsNonZeroDigit(s[4]) {
      assert ms[0] == Alt(2, m);
    } else {
      assert forall k :: 0 <= k < |ms| ==> ms[k].len == 1;
      OneDigitMonthsFail(s, day, ms);
    }
  }

  /** On a DD/MM/YYYY string a one-character month is followed by a digit,
      not '/', so it never leads to a match. */
  lemma {:induction false} OneDigitMonthsFail(s: string, day: nat, months: seq<Alt>)
    requires DmyShape(s)
    requires forall k :: 0 <= k < |months| ==> months[k].len == 1
    ensures DmyTryMonths(s, day, 3, months) == None
    decreases |months|
  {
    if months != [] {
      assert s[4] != '/';
      OneDigitMonthsFail(s, day, months[1..]);
    }
  }

  /** On a DD/MM/YYYY string a one-character day alternative never leads to
      a match (a digit, not '/', follows it), and every two-character one
      reads the day's two digits; so the search comes down to the month. */
  lemma {:induction false} DmyDaysOnShape(s: string, days: seq<Alt>)
    requires DmyShape(s)
    requires forall k :: 0 <= k < |days| ==>
      days[k].len == 1 || (days[k].len == 2 && days[k].value == DmyFields(s).day)
    ensures DmyTryDays(s, days) ==
      if exists k :: 0 <= k < |days| && days[k].len == 2
      then DmyTryMonths(s, DmyFields(s).day, 3, MonthAlternatives(s, 3))
      else None
    decreases |days|
  {
    if days != [] {
      DmyDaysOnShape(s, days[1..]);
      if days[0].len == 2 {
        DmyMonthStep(s, DmyFields(s).day);
      } else {
        assert forall k :: 1 <= k < |days| ==> days[k] == days[1..][k - 1];
      }
    }
  }

  /** The day alternatives on a DD/MM/YYYY string: each reads one digit or
      both, and one reading both exists exactly for the days 1 to 31. */
  lemma DayAlternativesOnShape(s: string)
    requires DmyShape(s)
    ensures var ds := DayAlternatives(s, 0);
      && (forall k :: 0 <= k < |ds| ==> ds[k].len == 1 || (ds[k].len == 2 && ds[k].value == DmyFields(s).day))
      && ((exists k :: 0 <= k < |ds| && ds[k].len == 2) <==> 1 <= DmyFields(s).day <= 31)
  {
    var ds := DayAlternatives(s, 0);
    var day := DmyFields(s).day;
    if 1 <= day <= 31 {
      assert ds[0].len == 2;
    } else {
      assert s[0] == '0' || s[0] == '3' || DigitValue(s[0]) >= 4;
      assert forall k :: 0 <= k < |ds| ==> ds[k].len == 1;
    }
  }

  /** On a DD/MM/YYYY string the first match takes both digits of the day
      and of the month whenever they denote a day 1–31 and a month 1–12,
      and there is no match otherwise. */
  lemma DmyMatchOnShape(s: string)
    requires DmyShape(s)
    ensures var f := DmyFields(s);
      DmyTryDays(s, DayAlternatives(s, 0)) ==
        if 1 <= f.day <= 31 && 1 <= f.month <= 12 then Some((f, 10)) else None
  {
    DayAlternativesOnShape(s);
    DmyDaysOnShape(s, DayAlternatives(s, 0));
    DmyMonthStep(s, DmyFields(s).day);
  }

  /** `strptime(s, '%d/%m/%Y')` on a DD/MM/YYYY string succeeds exactly
      when the digits spell a real calendar day. */
  lemma ParseDmyOnShape(s: string)
    requires DmyShape(s)
    ensures ParseDmy(s) == if IsValid(DmyFields(s)) then Some(DmyFields(s)) else None
  {
    DmyMatchOnShape(s);
  }

  /** Formatting a valid date as DD/MM/YYYY yields that shape, spelling the
      same date. */
  lemma FormatDmyShape(d: Date)
    requires IsValid(d)
    ensures DmyShape(FormatDmy(d)) && DmyFields(FormatDmy(d)) == d
  {
    var s := FormatDmy(d);
    assert s[..2] == TwoDigits(d.day) && s[3..5] == TwoDigits(d.month) && s[6..] == FourDigits(d.year);
  }

  /** Round trip: what `strftime('%d/%m/%Y')` writes, `strptime` reads back. */
  lemma DmyRoundTrip(d: Date)
    requires IsValid(d)
    ensures ParseDmy(FormatDmy(d)) == Some(d)
  {
    FormatDmyShape(d);
    ParseDmyOnShape(FormatDmy(d));
  }

  /** Round trip for the ISO form that the month-range helper writes. */
  lemma YmdRoundTrip(d: Date)
    requires IsValid(d)
    ensures ParseYmd(FormatYmd(d)) == Some(d)
  {
    var s := FormatYmd(d);
    assert s[..4] == FourDigits(d.year) && s[5..7] == TwoDigits(d.month) && s[8..] == TwoDigits(d.day);
    var ms := MonthAlternatives(s, 5);
    assert ms[0] == Alt(2, d.month);
    assert DayAlternatives(s, 8)[0] == Alt(2, d.day);
  }

  /** Whatever `strptime(s, '%Y-%m-%d')` accepts is a valid date. */
  lemma ParseYmdValid(s: string)
    requires ParseYmd(s).Some?
    ensures IsValid(ParseYmd(s).value)
  {
  }

  /** `strptime` is lenient: one-digit months and days are accepted. */
  lemma ParseYmdAcceptsShortFields()
    ensures ParseYmd("2025-1-5") == Some(Date(2025, 1, 5))
  {
    var s := "2025-1-5";
    assert MonthAlternatives(s, 5) == [Alt(1, 1)];
    assert DayAlternatives(s, 7) == [Alt(1, 5)];
  }

  /** A day the month does not have is refused. */
  lemma ParseYmdRefusesImpossibleDay()
    ensures ParseYmd("2025-02-29") == None
    ensures ParseYmd("2024-02-29") == Some(Date(2024, 2, 29))
  {
    February29("2025-02-29", 2025);
    February29("2024-02-29", 2024);
  }

  /** `strptime` on a YYYY-02-29 string: the 29th of February of that year,
      when the year has one. */
  lemma February29(s: string, y: nat)
    requires |s| == 10 && YearAt(s, 0) == Some(y) && s[4..] == "-02-29"
    ensures ParseYmd(s) == if IsValid(Date(y, 2, 29)) then Some(Date(y, 2, 29)) else None
  {
    assert s[4] == '-' && s[5] == '0' && s[6] == '2' && s[7] == '-' && s[8] == '2' && s[9] == '9';
    var ms := MonthAlternatives(s, 5);
    assert ms[0] == Alt(2, 2);
    var ds := DayAlternatives(s, 8);
    assert ds[0] == Alt(2, 29);
  }

  /** `strftime('%d/%m/%Y')` pads day and month to two digits. */
  lemma FormatDmyLeapDay()
    ensures IsValid(Date(2024, 2, 29)) && FormatDmy(Date(2024, 2, 29)) == "29/02/2024"
  {
    Year2024();
    assert TwoDigits(29) == "29" && TwoDigits(2) == "02";
  }

  lemma Year2024()
    ensures FourDigits(2024) == "2024"
  {
    assert TwoDigits(20) == "20" && TwoDigits(24) == "24";
  }
}
