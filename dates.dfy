/**
 * The date side of a report request: the `ddmmyy` validator the bot applies
 * to `/send ddmmyy`, and the two dates the quote download is bounded by,
 * the requested close date `dd/mm/20yy` (passed on as typed) and the day
 * before it, computed on the Gregorian calendar and written `dd/mm/yyyy`.
 */
module Dates {
  import opened Wrappers
  import opened PyStr

  // ---------------------------------------------------------------------------
  // The validator

  /**
   * The validator on a `ddmmyy` string, with Python's semantics: the three
   * two-character fields are read with `int()` (which raises on anything
   * but an optionally signed, whitespace-padded integer; `None` stands for
   * that), and the six comparisons are chained with a short-circuit `and`,
   * so a field is only read once the ones before it passed.
   */
  function CheckDate(date: string): (r: Option<bool>)
    ensures r == Some(true) ==> |date| >= 5
  {
    match ParseInt(Slice(date, 0, 2))
    case None => None
    case Some(d) =>
      if !(0 < d <= 31) then Some(false)
      else match ParseInt(Slice(date, 2, 4))
        case None => None
        case Some(m) =>
          if !(0 < m <= 12) then Some(false)
          else match ParseInt(Slice(date, 4, 6))
            case None => None
            case Some(y) => Some(0 < y <= 25)
  }

  /** The value of the two decimal digits at `s[k]`, `s[k + 1]`. */
  function TwoDigits(s: string, k: nat): nat
    requires k + 1 < |s| && IsDigit(s[k]) && IsDigit(s[k + 1])
  {
    10 * DigitValue(s[k]) + DigitValue(s[k + 1])
  }

  predicate SixDigits(s: string)
  {
    |s| >= 6 && forall k :: 0 <= k < 6 ==> IsDigit(s[k])
  }

  /**
   * On six digits the validator never raises, and it accepts exactly a day
   * in 1..31, a month in 1..12 and a year in 1..25, with no check of the
   * month's length.
   */
  lemma CheckDateDigits(s: string)
    requires SixDigits(s)
    ensures CheckDate(s) == Some(
      && 1 <= TwoDigits(s, 0) <= 31
      && 1 <= TwoDigits(s, 2) <= 12
      && 1 <= TwoDigits(s, 4) <= 25)
  {
    assert Slice(s, 0, 2) == [s[0], s[1]];
    assert Slice(s, 2, 4) == [s[2], s[3]];
    assert Slice(s, 4, 6) == [s[4], s[5]];
    ParseIntTwoDigits(s[0], s[1]);
    ParseIntTwoDigits(s[2], s[3]);
    ParseIntTwoDigits(s[4], s[5]);
  }

  /** A day field of `00` is rejected before the rest is read, so nothing after it can raise. */
  lemma CheckDateShortCircuit(rest: string)
    ensures CheckDate("00" + rest) == Some(false)
  {
    assert Slice("00" + rest, 0, 2) == ['0', '0'];
    ParseIntTwoDigits('0', '0');
  }

  /** The day field `ab` is not a number, so `int()` raises whatever follows. */
  lemma CheckDateRaises(rest: string)
    ensures CheckDate("ab" + rest) == None
  {
    var t := Slice("ab" + rest, 0, 2);
    assert t == ['a', 'b'];
    assert StripLeft(t) == t;
    assert StripRight(t) == t;
  }

  // ---------------------------------------------------------------------------
  // The calendar

  datatype Date = Date(day: int, month: int, year: int)

  predicate IsLeap(y: int)
  {
    y % 4 == 0 && (y % 100 != 0 || y % 400 == 0)
  }

  function DaysInMonth(m: int, y: int): (n: int)
    ensures 28 <= n <= 31
  {
    if m == 2 then (if IsLeap(y) then 29 else 28)
    else if m == 4 || m == 6 || m == 9 || m == 11 then 30
    else 31
  }

  /** The dates Python's `datetime` can represent, years 1 to 9999. */
  predicate Valid(d: Date)
  {
    1 <= d.year <= 9999 && 1 <= d.month <= 12 && 1 <= d.day <= DaysInMonth(d.month, d.year)
  }

  /** `datetime.min`, the one date without a predecessor. */
  const MinDate := Date(1, 1, 1)

  /** Chronological order. */
  predicate Before(a: Date, b: Date)
  {
    a.year < b.year
    || (a.year == b.year && a.month < b.month)
    || (a.year == b.year && a.month == b.month && a.day < b.day)
  }

  /** `date - timedelta(days=1)`. */
  function PrevDay(d: Date): (r: Date)
    requires Valid(d) && d != MinDate
    ensures Valid(r) && Before(r, d)
    ensures r.year == d.year || (r.year == d.year - 1 && d.month == 1 && d.day == 1)
  {
    if d.day > 1 then Date(d.day - 1, d.month, d.year)
    else if d.month > 1 then Date(DaysInMonth(d.month - 1, d.year), d.month - 1, d.year)
    else Date(31, 12, d.year - 1)
  }

  /** `date + timedelta(days=1)`, the inverse the day-before step is checked against. */
  function NextDay(d: Date): (r: Date)
    requires Valid(d) && (d.year < 9999 || d.month < 12 || d.day < 31)
    ensures Valid(r) && Before(d, r)
  {
    if d.day < DaysInMonth(d.month, d.year) then Date(d.day + 1, d.month, d.year)
    else if d.month < 12 then Date(1, d.month + 1, d.year)
    else Date(1, 1, d.year + 1)
  }

  /** Stepping back a day and forward again returns to the same date. */
  lemma NextOfPrev(d: Date)
    requires Valid(d) && d != MinDate
    ensures NextDay(PrevDay(d)) == d
  {
  }

  /** Stepping forward a day and back again returns to the same date. */
  lemma PrevOfNext(d: Date)
    requires Valid(d) && (d.year < 9999 || d.month < 12 || d.day < 31)
    ensures NextDay(d) != MinDate && PrevDay(NextDay(d)) == d
  {
  }

  /**
   * The day before `d` is its immediate predecessor: a valid date lies
   * before `d` exactly when it is that day or lies before it.
   */
  lemma PrevDayImmediate(d: Date, e: Date)
    requires Valid(d) && d != MinDate && Valid(e)
    ensures Before(e, d) <==> (e == PrevDay(d) || Before(e, PrevDay(d)))
  {
  }

  /** The day before 1 March is 29 February in a leap year and 28 February otherwise. */
  lemma PrevDayMarchFirst(y: int)
    requires 1 <= y <= 9999
    ensures PrevDay(Date(1, 3, y)) == Date(if IsLeap(y) then 29 else 28, 2, y)
  {
  }

  /** The day before 1 January is 31 December of the year before. */
  lemma PrevDayNewYear(y: int)
    requires 2 <= y <= 9999
    ensures PrevDay(Date(1, 1, y)) == Date(31, 12, y - 1)
  {
  }

  // ---------------------------------------------------------------------------
  // `datetime.strptime(text, "%d/%m/%Y")` and `strftime("%d/%m/%Y")`

  /** The `%d` directive: `3[01]|[12]\d|0[1-9]|[1-9]| [1-9]`, read with `int()`. */
  function DayToken(p: string): Option<int>
  {
    if |p| == 1 && '1' <= p[0] <= '9' then Some(DigitValue(p[0]))
    else if |p| == 2 && IsDigit(p[1])
      && ((p[0] == '3' && p[1] <= '1') || p[0] == '1' || p[0] == '2' || (p[0] == '0' && p[1] != '0'))
    then Some(10 * DigitValue(p[0]) + DigitValue(p[1]))
    else if |p| == 2 && p[0] == ' ' && '1' <= p[1] <= '9' then Some(DigitValue(p[1]))
    else None
  }

  /** The `%m` directive: `1[0-2]|0[1-9]|[1-9]`. */
  function MonthToken(p: string): Option<int>
  {
    if |p| == 1 && '1' <= p[0] <= '9' then Some(DigitValue(p[0]))
    else if |p| == 2 && ((p[0] == '1' && '0' <= p[1] <= '2') || (p[0] == '0' && '1' <= p[1] <= '9'))
    then Some(10 * DigitValue(p[0]) + DigitValue(p[1]))
    else None
  }

  /** The `%Y` directive: exactly four digits. */
  function YearToken(p: string): Option<int>
  {
    if |p| == 4 && IsDigit(p[0]) && IsDigit(p[1]) && IsDigit(p[2]) && IsDigit(p[3]) then
      Some(1000 * DigitValue(p[0]) + 100 * DigitValue(p[1]) + 10 * DigitValue(p[2]) + DigitValue(p[3]))
    else None
  }

  /**
   * `datetime.strptime(text, "%d/%m/%Y")`; `None` is its ValueError. No
   * directive matches a `/`, so the pattern matches the whole text exactly
   * when the text has three `/`-separated pieces matching the three
   * directives; the date must then exist.
   */
  function StrpTime(text: string): (r: Option<Date>)
    ensures r.Some? ==> Valid(r.value)
  {
    var parts := Split(text, '/');
    if |parts| != 3 then None
    else match (DayToken(parts[0]), MonthToken(parts[1]), YearToken(parts[2]))
      case (Some(d), Some(m), Some(y)) =>
        if Valid(Date(d, m, y)) then Some(Date(d, m, y)) else None
      case _ => None
  }

  function Pad2(n: int): (r: string)
    requires 0 <= n <= 99
    ensures |r| == 2 && IsDigit(r[0]) && IsDigit(r[1]) && 10 * DigitValue(r[0]) + DigitValue(r[1]) == n
  {
    [DigitChar(n / 10), DigitChar(n % 10)]
  }

  function Pad4(n: int): (r: string)
    requires 0 <= n <= 9999
    ensures |r| == 4 && YearToken(r) == Some(n)
  {
    var hi, lo := Pad2(n / 100), Pad2(n % 100);
    assert 100 * (n / 100) + n % 100 == n;
    hi + lo
  }

  /** `strftime("%d/%m/%Y")`. */
  function FormatDate(d: Date): (r: string)
    requires Valid(d) && d.year >= 1000
    ensures |r| == 10 && r[2] == '/' && r[5] == '/'
    ensures DayToken(r[..2]) == Some(d.day) && MonthToken(r[3..5]) == Some(d.month) && YearToken(r[6..]) == Some(d.year)
  {
    DayTokenPad(d.day);
    MonthTokenPad(d.month);
    var r := Pad2(d.day) + "/" + Pad2(d.month) + "/" + Pad4(d.year);
    assert r[..2] == Pad2(d.day) && r[3..5] == Pad2(d.month) && r[6..] == Pad4(d.year);
    r
  }

  lemma DayTokenPad(n: int)
    requires 1 <= n <= 31
    ensures DayToken(Pad2(n)) == Some(n)
  {
  }

  lemma MonthTokenPad(n: int)
    requires 1 <= n <= 12
    ensures MonthToken(Pad2(n)) == Some(n)
  {
  }

  /** Three separator-free pieces joined by `/` split back into those pieces. */
  lemma SplitThree(a: string, b: string, c: string)
    requires '/' !in a && '/' !in b && '/' !in c
    ensures Split(a + "/" + b + "/" + c, '/') == [a, b, c]
  {
    assert a + "/" + b + "/" + c == a + ['/'] + (b + ['/'] + c);
    SplitWord(a, b + ['/'] + c, '/');
    SplitWord(b, c, '/');
    SplitNoSep(c, '/');
  }

  /** A formatted date parses back to itself. */
  lemma StrpTimeFormat(d: Date)
    requires Valid(d) && d.year >= 1000
    ensures StrpTime(FormatDate(d)) == Some(d)
  {
    var a, b, c := Pad2(d.day), Pad2(d.month), Pad4(d.year);
    assert '/' !in a && '/' !in b && '/' !in c;
    SplitThree(a, b, c);
    DayTokenPad(d.day);
    MonthTokenPad(d.month);
  }

  // ---------------------------------------------------------------------------
  // The download window

  /** `close_date`: the request rewritten as `dd/mm/20yy`. */
  function CloseText(s: string): (r: string)
    ensures |r| == 4 + (if |s| < 6 then |s| else 6)
    ensures |s| >= 6 ==> r[2] == '/' && r[5] == '/' && r[6] == '2' && r[7] == '0'
  {
    Slice(s, 0, 2) + "/" + Slice(s, 2, 4) + "/20" + Slice(s, 4, 6)
  }

  /** Whatever was typed, a close date that parses lies in 2000..2099. */
  lemma CloseYearRange(s: string)
    requires StrpTime(CloseText(s)).Some?
    ensures 2000 <= StrpTime(CloseText(s)).value.year <= 2099
  {
    var a, b, c := Slice(s, 0, 2), Slice(s, 2, 4), "20" + Slice(s, 4, 6);
    var text := CloseText(s);
    assert text == a + "/" + b + "/" + c;
    CountAppend(a + "/" + b + "/", c, '/');
    CountAppend(a + "/" + b, "/", '/');
    CountAppend(a + "/", b, '/');
    CountAppend(a, "/", '/');
    CountZero(a, '/');
    CountZero(b, '/');
    CountZero(c, '/');
    SplitThree(a, b, c);
    assert YearToken(c).Some?;
  }

  /** The close date parsed from six digits: the date they name, if it exists. */
  lemma CloseDateOfDigits(s: string)
    requires SixDigits(s)
    requires CheckDate(s) == Some(true)
    ensures var d := Date(TwoDigits(s, 0), TwoDigits(s, 2), 2000 + TwoDigits(s, 4));
      StrpTime(CloseText(s)) == if d.day <= DaysInMonth(d.month, d.year) then Some(d) else None
  {
    CheckDateDigits(s);
    CloseDateOfFields(s);
  }

  lemma CloseDateOfFields(s: string)
    requires SixDigits(s)
    requires 1 <= TwoDigits(s, 0) <= 31 && 1 <= TwoDigits(s, 2) <= 12
    ensures var d := Date(TwoDigits(s, 0), TwoDigits(s, 2), 2000 + TwoDigits(s, 4));
      StrpTime(CloseText(s)) == if d.day <= DaysInMonth(d.month, d.year) then Some(d) else None
  {
    var a, b, c := Slice(s, 0, 2), Slice(s, 2, 4), "20" + Slice(s, 4, 6);
    assert a == [s[0], s[1]] && b == [s[2], s[3]] && c == ['2', '0', s[4], s[5]];
    DigitTokens(s, a, b, c);
    assert CloseText(s) == a + "/" + b + "/" + c;
    SplitThree(a, b, c);
  }

  /** The three fields of an accepted six-digit request, as the date directives read them. */
  lemma DigitTokens(s: string, a: string, b: string, c: string)
    requires SixDigits(s)
    requires 1 <= TwoDigits(s, 0) <= 31 && 1 <= TwoDigits(s, 2) <= 12
    requires a == [s[0], s[1]] && b == [s[2], s[3]] && c == ['2', '0', s[4], s[5]]
    ensures DayToken(a) == Some(TwoDigits(s, 0))
    ensures MonthToken(b) == Some(TwoDigits(s, 2))
    ensures YearToken(c) == Some(2000 + TwoDigits(s, 4))
  {
  }

  /** The validator lets through 31 February, which the date parser then rejects. */
  lemma CheckDateAdmitsMissingDay()
    ensures CheckDate("310222") == Some(true)
    ensures StrpTime(CloseText("310222")) == None
  {
    assert SixDigits("310222");
    CheckDateDigits("310222");
    CloseDateOfDigits("310222");
  }

  /** The validator lets through a five-character request, whose year the date parser rejects. */
  lemma CheckDateAdmitsShortYear()
    ensures CheckDate("01015") == Some(true)
    ensures StrpTime(CloseText("01015")) == None
  {
    var s := "01015";
    assert Slice(s, 0, 2) == ['0', '1'] && Slice(s, 2, 4) == ['0', '1'] && Slice(s, 4, 6) == ['5'];
    ParseIntTwoDigits('0', '1');
    var t := ['5'];
    assert StripLeft(t) == t && StripRight(t) == t;
    assert t[..0] == [];
    assert ParseInt(t) == Some(5);
    assert CloseText(s) == ['0', '1'] + "/" + ['0', '1'] + "/" + "205";
    SplitThree(['0', '1'], ['0', '1'], "205");
  }

  /** The two `dd/mm/yyyy` strings the quote download is bounded by. */
  datatype Window = Window(from: string, to: string)

  /**
   * The download window of a request: the close date as typed, and the day
   * before it as `strftime` writes it. `None` is the ValueError `strptime`
   * raises when the close date does not parse or does not exist.
   */
  function DownloadWindow(s: string): (r: Option<Window>)
    ensures r.Some? <==> StrpTime(CloseText(s)).Some?
    ensures r.Some? ==> r.value.to == CloseText(s)
    ensures r.Some? ==>
      var close := StrpTime(CloseText(s)).value;
      close != MinDate && StrpTime(r.value.from) == Some(PrevDay(close))
    ensures r.Some? ==>
      var close := StrpTime(CloseText(s)).value;
      close != MinDate && 2000 <= close.year && r.value.from == FormatDate(PrevDay(close))
  {
    match StrpTime(CloseText(s))
    case None => None
    case Some(close) =>
      CloseYearRange(s);
      StrpTimeFormat(PrevDay(close));
      Some(Window(FormatDate(PrevDay(close)), CloseText(s)))
  }
}
